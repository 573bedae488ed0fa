/**
 * The pure half of the build manifest (`VersionInfo.xml`): per-build schema detection, the
 * legacy version collapse, the date/time reformatting, reading a `<build>` element (and the
 * builds nested in its `components` and `directcomponents` groups) into a record, reading a
 * whole manifest, the product filter and the line rejoining applied to manifest files.
 * The objects that wrap a live tree are in module ManifestObjects.
 */
module Manifest {
  import opened Wrappers
  import opened Text
  import opened Dom

  /** The three build-tag layouts, in the order they are tried (1.0, 1.1, 2.0). */
  datatype Schema = V1_0 | V1_1 | V2_0

  datatype ManifestError =
    | NotANumber(text: string)   // manifest version that `float()` rejects
    | NoVersionInfo              // no `<versioninfo>` below the root
    | ManyVersionInfo            // more than one `<versioninfo>` below the root
    | UnknownSchema              // a `<build>` matching none of the three layouts
    | NoVersion                  // a `<build>` whose version ends up empty
    | BadDateTime                // legacy `date`/`time` that `strptime` rejects
    | VersionOldMissing          // the legacy collapse as written reads an attribute never set
    | SourceNotFound             // the manifest to merge components from does not exist
    | NoBuilds                   // `target()` on a manifest with no builds
    | VersionUnset               // `version()` on a manifest that was never loaded

  /** Schema-specific fields: 1.0/1.1 builds carry date, time, target and phase; 2.0 builds the rest. */
  datatype Variant =
    | Legacy(date: string, time: string, target: string, phaseMajor: string, phaseMinor: string)
    | Current(subproduct: string, compilertarget: string, licensemodel: string, format: string, platform: string)

  datatype Repository = Repository(scheme: string, authority: string, path: string, query: string, uri: string)

  datatype FileEntry = FileEntry(name: string, md5: string)

  /** One `<build>` as the manifest code reads it; `element` is the element after normalisation. */
  datatype BuildInfo = BuildInfo(
    schema: Schema,
    product: string,
    version: string,
    buildnum: string,
    datetime: string,
    fullversion: string,
    lang: string,
    variant: Variant,
    repositories: seq<Repository>,
    components: seq<BuildInfo>,
    directcomponents: seq<BuildInfo>,
    metadata: map<string, string>,
    fileinfo: seq<FileEntry>,
    element: Node)

  // ---------------------------------------------------------------- schema detection

  /** The layout of a `<build>` element, decided by which attributes it has, in a fixed order. */
  function DetectSchema(e: Node): (r: Result<Schema, ManifestError>)
    ensures r == Success(V1_0) <==> HasAttr(e, "version_major")
    ensures r == Success(V1_1) <==> !HasAttr(e, "version_major") && HasAttr(e, "version") && HasAttr(e, "target")
    ensures r == Success(V2_0) <==> !HasAttr(e, "version_major") && !(HasAttr(e, "version") && HasAttr(e, "target")) &&
                                    HasAttr(e, "compilertarget")
    ensures r.Failure? ==> r.error == UnknownSchema
  {
    if HasAttr(e, "version_major") then Success(V1_0)
    else if HasAttr(e, "version") && HasAttr(e, "target") then Success(V1_1)
    else if HasAttr(e, "compilertarget") then Success(V2_0)
    else Failure(UnknownSchema)
  }

  /** `version_major` decides the layout whatever other attributes are present. */
  lemma LegacyWins(e: Node, extra: map<string, string>)
    requires HasAttr(e, "version_major") && e.Element?
    ensures DetectSchema(e.(attrs := e.attrs + extra)) == Success(V1_0)
  {
  }

  // ---------------------------------------------------------------- legacy version collapse

  /** `major.minor` when the sub-version is "0", `major.minor.sub` otherwise. */
  function LegacyVersion(major: string, minor: string, sub: string): string {
    if sub == "0" then major + "." + minor else major + "." + minor + "." + sub
  }

  /** Python's `s.split(".")`. */
  function SplitDots(s: string): (r: seq<string>)
    ensures |r| >= 1
    ensures '.' !in s ==> r == [s]
  {
    var i := Find(s, '.');
    if i < 0 then [s] else [s[..i]] + SplitDots(s[i + 1..])
  }

  lemma SplitDotsJoin(a: string, b: string)
    requires '.' !in a
    ensures SplitDots(a + "." + b) == [a] + SplitDots(b)
  {
    var s := a + "." + b;
    assert s[|a|] == '.' && s[..|a|] == a;
    assert Find(s, '.') == |a|;
    assert s[|a| + 1..] == b;
  }

  /** The collapsed version string gives back its parts; a "0" sub-version is the one dropped. */
  lemma {:induction false} LegacyVersionParts(major: string, minor: string, sub: string)
    requires '.' !in major && '.' !in minor && '.' !in sub
    ensures SplitDots(LegacyVersion(major, minor, sub)) == if sub == "0" then [major, minor] else [major, minor, sub]
  {
    if sub == "0" {
      SplitDotsJoin(major, minor);
    } else {
      assert major + "." + minor + "." + sub == major + "." + (minor + "." + sub);
      SplitDotsJoin(major, minor + "." + sub);
      SplitDotsJoin(minor, sub);
    }
  }

  const LegacyParts: set<string> := {"version_major", "version_minor", "version_sub"}

  /**
   * The collapse of a 1.0 build as evidently intended: the combined version replaces the
   * `version` attribute unless it starts with "." (no major part), and the three legacy
   * attributes are removed. Returns the version the build then carries and its new attributes.
   */
  function CollapseLegacy(e: Node): (r: (string, map<string, string>))
    requires e.Element?
    ensures var combined := LegacyVersion(Attr(e, "version_major"), Attr(e, "version_minor"), Attr(e, "version_sub"));
            var (version, attrs) := r;
            (forall k | k in LegacyParts :: k !in attrs) &&
            (!StartsWith(combined, ".") ==> version == combined && "version" in attrs && attrs["version"] == version) &&
            (StartsWith(combined, ".") ==> version == Attr(e, "version")) &&
            (forall k | k in e.attrs && k !in LegacyParts && k != "version" :: k in attrs && attrs[k] == e.attrs[k]) &&
            (forall k | k in attrs :: k in e.attrs || k == "version")
  {
    var combined := LegacyVersion(Attr(e, "version_major"), Attr(e, "version_minor"), Attr(e, "version_sub"));
    if !StartsWith(combined, ".") then (combined, e.attrs["version" := combined] - LegacyParts)
    else (Attr(e, "version"), e.attrs - LegacyParts)
  }

  /**
   * The collapse exactly as the source writes it: the assignment reads `self.version_old`, an
   * attribute no code sets, so every combined version not starting with "." raises.
   */
  function CollapseLegacyAsWritten(e: Node): (r: Result<(string, map<string, string>), ManifestError>)
    requires e.Element?
    ensures var combined := LegacyVersion(Attr(e, "version_major"), Attr(e, "version_minor"), Attr(e, "version_sub"));
            (r.Failure? <==> !StartsWith(combined, ".")) && (r.Failure? ==> r.error == VersionOldMissing)
  {
    var combined := LegacyVersion(Attr(e, "version_major"), Attr(e, "version_minor"), Attr(e, "version_sub"));
    if !StartsWith(combined, ".") then Failure(VersionOldMissing)
    else Success((Attr(e, "version"), e.attrs - LegacyParts))
  }

  /** Any 1.0 build with a non-empty major version that does not start with "." breaks the code as written. */
  lemma AsWrittenRejectsLegacy(e: Node)
    requires e.Element? && Attr(e, "version_major") != "" && Attr(e, "version_major")[0] != '.'
    ensures CollapseLegacyAsWritten(e) == Failure(VersionOldMissing)
    ensures CollapseLegacy(e).0 == LegacyVersion(Attr(e, "version_major"), Attr(e, "version_minor"), Attr(e, "version_sub"))
  {
    var combined := LegacyVersion(Attr(e, "version_major"), Attr(e, "version_minor"), Attr(e, "version_sub"));
    assert combined[0] == Attr(e, "version_major")[0];
  }

  // ---------------------------------------------------------------- date and time

  function DigitValue(c: char): nat
    requires IsDigit(c)
  {
    c as nat - '0' as nat
  }

  /** The number written by a string of decimal digits. */
  function Number(s: string): nat
    requires AllDigits(s)
  {
    if s == "" then 0 else Number(s[..|s| - 1]) * 10 + DigitValue(s[|s| - 1])
  }

  function DigitChar(d: nat): (c: char)
    requires d < 10
    ensures IsDigit(c) && DigitValue(c) == d
  {
    ('0' as int + d) as char
  }

  /** Python's `str()` of a non-negative integer. */
  function NatToString(n: nat): (s: string)
    ensures s != "" && AllDigits(s)
  {
    if n < 10 then [DigitChar(n)] else NatToString(n / 10) + [DigitChar(n % 10)]
  }

  /** Reading the decimal text back gives the number. */
  lemma {:induction false} NatToStringRoundTrip(n: nat)
    ensures Number(NatToString(n)) == n
  {
    var s := NatToString(n);
    if n >= 10 {
      NatToStringRoundTrip(n / 10);
      assert s[..|s| - 1] == NatToString(n / 10);
    } else {
      assert s[..0] == "";
    }
  }

  predicate LeapYear(y: nat) {
    y % 4 == 0 && (y % 100 != 0 || y % 400 == 0)
  }

  function DaysInMonth(y: nat, m: nat): nat
    requires 1 <= m <= 12
  {
    if m == 2 then (if LeapYear(y) then 29 else 28)
    else if m in {4, 6, 9, 11} then 30
    else 31
  }

  /**
   * `date` (YYYYMMDD) and `time` (HHMMSS) that `strptime` accepts, that name a real calendar day,
   * and whose year `strftime` prints (it refuses years from 100 to 1899).
   */
  predicate ValidDateTime(date: string, time: string) {
    |date| == 8 && |time| == 6 && AllDigits(date) && AllDigits(time) &&
    var y, m, d := Number(date[..4]), Number(date[4..6]), Number(date[6..]);
    y >= 1900 && 1 <= m <= 12 && 1 <= d <= DaysInMonth(y, m) &&
    Number(time[..2]) <= 23 && Number(time[2..4]) <= 59 && Number(time[4..]) <= 61
  }

  /** The digits of a `YYYYMMDD` date and an `HHMMSS` time laid out as `YYYY/MM/DD:HH:MM:SS`. */
  function Restamp(date: string, time: string): string
    requires |date| == 8 && |time| == 6
  {
    date[..4] + "/" + date[4..6] + "/" + date[6..] + ":" + time[..2] + ":" + time[2..4] + ":" + time[4..]
  }

  /** `strftime("%Y/%m/%d:%H:%M:%S", strptime(date + " " + time, "%Y%m%d %H%M%S"))`. */
  function FormatDateTime(date: string, time: string): (r: Result<string, ManifestError>)
    ensures r.Failure? <==> !ValidDateTime(date, time)
    ensures r.Failure? ==> r.error == BadDateTime
    ensures r.Success? ==> r.value == Restamp(date, time)
  {
    if !ValidDateTime(date, time) then Failure(BadDateTime)
    else Success(Restamp(date, time))
  }

  /** The digits of a string, separators dropped. */
  function DigitsOf(s: string): string {
    if s == "" then "" else (if IsDigit(s[0]) then [s[0]] else []) + DigitsOf(s[1..])
  }

  lemma {:induction false} DigitsOfAppend(a: string, b: string)
    requires AllDigits(a)
    ensures DigitsOf(a + b) == a + DigitsOf(b)
  {
    if a != "" {
      assert (a + b)[0] == a[0] && (a + b)[1..] == a[1..] + b;
      DigitsOfAppend(a[1..], b);
      assert [a[0]] + a[1..] == a;
    } else {
      assert a + b == b;
    }
  }

  /** Digits, one separator, then the rest: the separator disappears. */
  lemma DigitsAcross(a: string, sep: char, b: string)
    requires AllDigits(a) && !IsDigit(sep)
    ensures DigitsOf(a + ([sep] + b)) == a + DigitsOf(b)
  {
    DigitsOfAppend(a, [sep] + b);
    assert ([sep] + b)[1..] == b;
  }

  /** The reformatted stamp holds the same digits, with the separators in fixed places. */
  lemma {:induction false} DateTimeDigits(date: string, time: string)
    requires ValidDateTime(date, time)
    ensures var r := FormatDateTime(date, time).value;
            |r| == 19 && r[4] == '/' && r[7] == '/' && r[10] == ':' && r[13] == ':' && r[16] == ':' &&
            DigitsOf(r) == date + time
  {
    var r := FormatDateTime(date, time).value;
    var s6 := time[4..];
    var s5 := time[2..4] + (":" + s6);
    var s4 := time[..2] + (":" + s5);
    var s3 := date[6..] + (":" + s4);
    var s2 := date[4..6] + ("/" + s3);
    var s1 := date[..4] + ("/" + s2);
    assert r == s1;
    DigitsOfAppend(s6, "");
    assert s6 + "" == s6;
    DigitsAcross(time[2..4], ':', s6);
    DigitsAcross(time[..2], ':', s5);
    DigitsAcross(date[6..], ':', s4);
    DigitsAcross(date[4..6], '/', s3);
    DigitsAcross(date[..4], '/', s2);
    assert time[..2] + time[2..4] + time[4..] == time;
    assert date[..4] + date[4..6] + date[6..] == date;
  }

  // ---------------------------------------------------------------- child collections

  /** The record for one `<repository>` element; the URI is scheme://authority + path + query. */
  function RepositoryOf(e: Node): Repository {
    var scheme, authority, path, query := Attr(e, "scheme"), Attr(e, "authority"), Attr(e, "path"), Attr(e, "query");
    Repository(scheme, authority, path, query, scheme + "://" + authority + path + query)
  }

  function Repositories(items: seq<Node>): (r: seq<Repository>)
    ensures |r| == |items|
  {
    if items == [] then [] else Repositories(items[..|items| - 1]) + [RepositoryOf(items[|items| - 1])]
  }

  /** The repositories of a build: its `<repository>` children, in order. */
  function RepositoryList(cs: seq<Node>): seq<Repository> {
    Repositories(Tagged(cs, "repository"))
  }

  function Files(items: seq<Node>): (r: seq<FileEntry>)
    ensures |r| == |items|
  {
    if items == [] then []
    else
      var f := items[|items| - 1];
      Files(items[..|items| - 1]) + [FileEntry(Attr(f, "name"), Attr(f, "md5"))]
  }

  /** The file records of a build: every `<file>` of every `<fileinfo>` child, in order. */
  function FileList(cs: seq<Node>): seq<FileEntry> {
    Files(ItemsUnder(cs, "fileinfo", "file"))
  }

  /** Metadata items in document order folded into a map: a later item with the same key wins. */
  function MetaMap(items: seq<Node>): map<string, string> {
    if items == [] then map[]
    else
      var it := items[|items| - 1];
      MetaMap(items[..|items| - 1])[Attr(it, "key") := Attr(it, "value")]
  }

  /** The metadata of a build: every `<item>` of every `<metadata>` child. */
  function MetadataOf(cs: seq<Node>): map<string, string> {
    MetaMap(ItemsUnder(cs, "metadata", "item"))
  }

  lemma RepositoriesSnoc(items: seq<Node>, x: Node)
    ensures Repositories(items + [x]) == Repositories(items) + [RepositoryOf(x)]
  {
    Snoc(items, x);
  }

  lemma FilesSnoc(items: seq<Node>, f: Node)
    ensures Files(items + [f]) == Files(items) + [FileEntry(Attr(f, "name"), Attr(f, "md5"))]
  {
    Snoc(items, f);
  }

  lemma MetaMapSnoc(items: seq<Node>, it: Node)
    ensures MetaMap(items + [it]) == MetaMap(items)[Attr(it, "key") := Attr(it, "value")]
  {
    Snoc(items, it);
  }

  // ---------------------------------------------------------------- reading builds

  /** The elements of parsed builds, in order. */
  function Elements(bs: seq<BuildInfo>): (r: seq<Node>)
    ensures |r| == |bs|
  {
    if bs == [] then [] else Elements(bs[..|bs| - 1]) + [bs[|bs| - 1].element]
  }

  lemma {:induction false} ElementsIndex(bs: seq<BuildInfo>, j: nat)
    requires j < |bs|
    ensures Elements(bs)[j] == bs[j].element
    decreases |bs|
  {
    var n := |bs| - 1;
    if j < n {
      ElementsIndex(bs[..n], j);
    }
  }

  lemma {:induction false} ElementsAppend(a: seq<BuildInfo>, b: seq<BuildInfo>)
    ensures Elements(a + b) == Elements(a) + Elements(b)
    decreases |b|
  {
    if b == [] {
      assert a + b == a;
    } else {
      var n := |b| - 1;
      assert (a + b)[..|a + b| - 1] == a + b[..n];
      ElementsAppend(a, b[..n]);
    }
  }

  lemma ElementsSnoc(bs: seq<BuildInfo>, b: BuildInfo)
    ensures Elements(bs + [b]) == Elements(bs) + [b.element]
  {
    assert (bs + [b])[..|bs|] == bs;
  }

  lemma GroupSnoc(g: Group, b: BuildInfo)
    requires Elements(g.builds) == Tagged(g.children, "build") && IsElement(b.element, "build")
    ensures Elements(g.builds + [b]) == Tagged(g.children + [b.element], "build")
  {
    ElementsSnoc(g.builds, b);
    TaggedSnoc(g.children, b.element, "build");
  }

  /** `y` is `x` after reading: the same kind of node, with the same tag. */
  predicate SameTag(x: Node, y: Node) {
    (x.Element? <==> y.Element?) && (x.Element? ==> y.tag == x.tag)
  }

  /** Siblings after reading: same length and tags, and children with other tags untouched. */
  predicate Normalised(cs: seq<Node>, out: seq<Node>, changed: set<string>) {
    |out| == |cs| &&
    forall j | 0 <= j < |cs| :: SameTag(cs[j], out[j]) && (!(cs[j].Element? && cs[j].tag in changed) ==> out[j] == cs[j])
  }

  /** One more sibling read: the run stays normalised when the new child keeps its tag. */
  lemma NormalisedStep(cs: seq<Node>, prev: seq<Node>, out: seq<Node>, changed: set<string>)
    requires cs != [] && Normalised(cs[..|cs| - 1], prev, changed)
    requires |out| == |prev| + 1 && out == prev + [out[|prev|]]
    requires SameTag(cs[|cs| - 1], out[|prev|])
    requires !(cs[|cs| - 1].Element? && cs[|cs| - 1].tag in changed) ==> out[|prev|] == cs[|cs| - 1]
    ensures Normalised(cs, out, changed)
  {
    var n := |cs| - 1;
    forall j | 0 <= j < n
      ensures SameTag(cs[j], out[j]) && (!(cs[j].Element? && cs[j].tag in changed) ==> out[j] == cs[j])
    {
      assert cs[..n][j] == cs[j] && out[j] == prev[j];
    }
  }

  /** Build number, date stamp and schema-specific fields of a build whose version is settled. */
  function ReadVariant(e: Node, schema: Schema): (r: Result<(string, string, Variant), ManifestError>)
    ensures r.Failure? <==> schema != V2_0 && !ValidDateTime(Attr(e, "date"), Attr(e, "time"))
    ensures r.Failure? ==> r.error == BadDateTime
    ensures r.Success? ==> (r.value.2.Legacy? <==> schema != V2_0)
    ensures r.Success? ==> r.value.0 == Attr(e, if schema != V2_0 then "version_build" else "build")
    ensures r.Success? && schema != V2_0 ==> FormatDateTime(Attr(e, "date"), Attr(e, "time")) == Success(r.value.1)
    ensures r.Success? && schema == V2_0 ==> r.value.1 == Attr(e, "datetime")
    ensures r.Success? && r.value.2.Legacy? ==>
              r.value.2.target == Attr(e, "target") && r.value.2.date == Attr(e, "date") && r.value.2.time == Attr(e, "time") &&
              r.value.2.phaseMajor == Attr(e, "phase_major") && r.value.2.phaseMinor == Attr(e, "phase_minor")
    ensures r.Success? && r.value.2.Current? ==>
              r.value.2.subproduct == Attr(e, "subproduct") &&
              r.value.2.compilertarget == Attr(e, "compilertarget") && r.value.2.licensemodel == Attr(e, "licensemodel") &&
              r.value.2.format == Attr(e, "format") && r.value.2.platform == Attr(e, "platform")
  {
    if schema != V2_0 then
      var date, time := Attr(e, "date"), Attr(e, "time");
      var stamp :- FormatDateTime(date, time);
      Success((Attr(e, "version_build"), stamp,
               Legacy(date, time, Attr(e, "target"), Attr(e, "phase_major"), Attr(e, "phase_minor"))))
    else
      Success((Attr(e, "build"), Attr(e, "datetime"),
               Current(Attr(e, "subproduct"), Attr(e, "compilertarget"), Attr(e, "licensemodel"),
                       Attr(e, "format"), Attr(e, "platform"))))
  }

  /** The version a build carries and its attributes: collapsed for 1.0 builds, as found otherwise. */
  function Settle(e: Node, schema: Schema): (r: (string, map<string, string>))
    requires e.Element? && DetectSchema(e) == Success(schema)
    ensures var e1 := Element(e.tag, r.1, e.children);
            Attr(e1, "version") == r.0 && !HasAttr(e1, "version_major") &&
            Attr(e1, "product") == Attr(e, "product") && Attr(e1, "lang") == Attr(e, "lang") &&
            (schema != V1_0 ==> r == (Attr(e, "version"), e.attrs))
  {
    if schema == V1_0 then CollapseLegacy(e) else (Attr(e, "version"), e.attrs)
  }

  /** Settling touches only `version` and the legacy version parts. */
  lemma SettleKeeps(e: Node, schema: Schema, k: string)
    requires e.Element? && DetectSchema(e) == Success(schema)
    requires k !in LegacyParts && k != "version"
    ensures Attr(Element(e.tag, Settle(e, schema).1, e.children), k) == Attr(e, k)
  {
  }

  /**
   * A `<build>` element read into a record. Errors come in the order the reading meets them:
   * unknown layout, empty version, unreadable legacy date, then the first failing nested build.
   */
  function ParseBuild(e: Node): (r: Result<BuildInfo, ManifestError>)
    requires e.Element?
    ensures r.Success? ==> r.value.element.Element? && r.value.element.tag == e.tag
    ensures r.Success? ==> |r.value.element.children| == |e.children|
    ensures r.Success? ==> DetectSchema(e) == Success(r.value.schema)
    decreases e, 1
  {
    var schema :- DetectSchema(e);
    var (version, attrs) := Settle(e, schema);
    var e1 := Element(e.tag, attrs, e.children);
    if version == "" then Failure(NoVersion)
    else
      var fields :- ReadVariant(e1, schema);
      var nested :- ParseNested(e.children);
      var cs := nested.children;
      var buildnum := fields.0;
      Success(BuildInfo(schema, Attr(e, "product"), version, buildnum, fields.1, version + " " + buildnum,
                        Attr(e1, "lang"), fields.2, RepositoryList(cs), nested.components,
                        nested.directcomponents, MetadataOf(cs), FileList(cs), Element(e.tag, attrs, cs)))
  }

  /** The lists of a build agree with its children. */
  predicate ListsAgree(cs: seq<Node>, repositories: seq<Repository>, metadata: map<string, string>,
                       fileinfo: seq<FileEntry>, components: seq<BuildInfo>, directcomponents: seq<BuildInfo>)
  {
    repositories == RepositoryList(cs) && metadata == MetadataOf(cs) && fileinfo == FileList(cs) &&
    Elements(components) == ItemsUnder(cs, "components", "build") &&
    Elements(directcomponents) == ItemsUnder(cs, "directcomponents", "build")
  }

  /**
   * What holds between a build record and its normalised element: the version is settled and
   * written back, the legacy major version is gone, the build number and date stamp are read
   * from the attributes of the build's layout, and every list mirrors the children.
   */
  predicate Consistent(b: BuildInfo) {
    var el := b.element;
    el.Element? && b.version != "" && b.fullversion == b.version + " " + b.buildnum &&
    b.product == Attr(el, "product") && b.version == Attr(el, "version") && b.lang == Attr(el, "lang") &&
    !HasAttr(el, "version_major") &&
    b.buildnum == Attr(el, if b.schema != V2_0 then "version_build" else "build") &&
    (b.variant.Legacy? <==> b.schema != V2_0) &&
    (b.variant.Legacy? ==>
       b.variant.target == Attr(el, "target") && b.variant.date == Attr(el, "date") && b.variant.time == Attr(el, "time") &&
       FormatDateTime(b.variant.date, b.variant.time) == Success(b.datetime)) &&
    (b.variant.Current? ==> b.datetime == Attr(el, "datetime")) &&
    (b.variant.Current? ==>
       Attr(el, "compilertarget") == b.variant.compilertarget && Attr(el, "licensemodel") == b.variant.licensemodel &&
       Attr(el, "format") == b.variant.format && Attr(el, "platform") == b.variant.platform) &&
    ListsAgree(el.children, b.repositories, b.metadata, b.fileinfo, b.components, b.directcomponents)
  }

  /** A run of siblings with every `<build>` among them read; the siblings after normalisation. */
  datatype Group = Group(builds: seq<BuildInfo>, children: seq<Node>)

  function ParseGroup(cs: seq<Node>): (r: Result<Group, ManifestError>)
    ensures r.Success? ==> Normalised(cs, r.value.children, {"build"})
    ensures r.Success? ==> Elements(r.value.builds) == Tagged(r.value.children, "build")
    decreases cs, 2
  {
    if cs == [] then Success(Group([], []))
    else
      var n := |cs| - 1;
      var g :- ParseGroup(cs[..n]);
      var g' :- GroupStep(g, cs[n]);
      NormalisedStep(cs, g.children, g'.children, {"build"});
      Success(g')
  }

  /** One more sibling: a `<build>` is read, anything else kept as it is. */
  function GroupStep(g: Group, last: Node): (r: Result<Group, ManifestError>)
    requires Elements(g.builds) == Tagged(g.children, "build")
    ensures r.Success? ==> |r.value.children| == |g.children| + 1 && r.value.children == g.children + [r.value.children[|g.children|]]
    ensures r.Success? ==> var y := r.value.children[|g.children|];
              SameTag(last, y) && (!(last.Element? && last.tag in {"build"}) ==> y == last)
    ensures r.Success? ==> Elements(r.value.builds) == Tagged(r.value.children, "build")
    decreases last, 2
  {
    if IsElement(last, "build") then
      var b :- ParseBuild(last);
      GroupSnoc(g, b);
      Success(Group(g.builds + [b], g.children + [b.element]))
    else
      TaggedSnoc(g.children, last, "build");
      Success(Group(g.builds, g.children + [last]))
  }


  /**
   * Why reading a `<build>` fails, in the order the reading meets the causes: an unknown layout,
   * an empty version, a legacy date and time `strptime`/`strftime` reject, a nested build that fails.
   */
  lemma BuildErrors(e: Node)
    requires e.Element?
    ensures DetectSchema(e).Failure? ==> ParseBuild(e) == Failure(UnknownSchema)
    ensures DetectSchema(e).Success? ==>
              var schema := DetectSchema(e).value;
              var dated := schema == V2_0 || ValidDateTime(Attr(e, "date"), Attr(e, "time"));
              (Settle(e, schema).0 == "" ==> ParseBuild(e) == Failure(NoVersion)) &&
              (Settle(e, schema).0 != "" && !dated ==> ParseBuild(e) == Failure(BadDateTime)) &&
              (Settle(e, schema).0 != "" && dated ==>
                 (ParseBuild(e).Success? <==> ParseNested(e.children).Success?) &&
                 (ParseBuild(e).Failure? ==> ParseBuild(e) == Failure(ParseNested(e.children).error)))
  {
    if DetectSchema(e).Success? {
      var schema := DetectSchema(e).value;
      SettleKeeps(e, schema, "date");
      SettleKeeps(e, schema, "time");
    }
  }

  /** A build read from `e` carries the settled version and attributes, and `e`'s product and lang. */
  lemma BuildReadsFields(e: Node)
    requires e.Element? && ParseBuild(e).Success?
    ensures var b := ParseBuild(e).value;
            b.version == Settle(e, b.schema).0 && b.element.attrs == Settle(e, b.schema).1 &&
            b.product == Attr(e, "product") && b.lang == Attr(e, "lang")
  {
  }

  /**
   * The build number of a build read from `e` is `version_build` below 2.0 and `build` at 2.0;
   * its date stamp is the reformatted `date` and `time` below 2.0 and the `datetime` attribute at 2.0.
   */
  lemma BuildReadsStamp(e: Node)
    requires e.Element? && ParseBuild(e).Success?
    ensures var b := ParseBuild(e).value;
            b.buildnum == Attr(e, if b.schema != V2_0 then "version_build" else "build") &&
            (b.schema != V2_0 ==> FormatDateTime(Attr(e, "date"), Attr(e, "time")) == Success(b.datetime)) &&
            (b.schema == V2_0 ==> b.datetime == Attr(e, "datetime"))
  {
    var b := ParseBuild(e).value;
    BuildVariant(e);
    SettledStamp(e, b.schema, b.buildnum, b.datetime, b.variant);
  }

  /** Settling keeps the attributes the build number and the stamp are read from. */
  lemma SettledStamp(e: Node, schema: Schema, buildnum: string, datetime: string, variant: Variant)
    requires e.Element? && DetectSchema(e) == Success(schema)
    requires ReadVariant(Element(e.tag, Settle(e, schema).1, e.children), schema) == Success((buildnum, datetime, variant))
    ensures buildnum == Attr(e, if schema != V2_0 then "version_build" else "build")
    ensures schema != V2_0 ==> FormatDateTime(Attr(e, "date"), Attr(e, "time")) == Success(datetime)
    ensures schema == V2_0 ==> datetime == Attr(e, "datetime")
  {
    if schema != V2_0 {
      SettleKeeps(e, schema, "date");
      SettleKeeps(e, schema, "time");
      SettleKeeps(e, schema, "version_build");
    }
  }

  /** The build number, stamp and variant of a read build are those of its settled element. */
  lemma BuildVariant(e: Node)
    requires e.Element? && ParseBuild(e).Success?
    ensures var b := ParseBuild(e).value;
            ReadVariant(Element(e.tag, Settle(e, b.schema).1, e.children), b.schema) == Success((b.buildnum, b.datetime, b.variant))
  {
  }

  /** The children and component lists of a build read from `e` are those `ParseNested` reads from its children. */
  lemma BuildReadsNested(e: Node)
    requires e.Element? && ParseBuild(e).Success?
    ensures ParseNested(e.children).Success? && var b := ParseBuild(e).value;
            b.element.children == ParseNested(e.children).value.children &&
            b.components == ParseNested(e.children).value.components &&
            b.directcomponents == ParseNested(e.children).value.directcomponents
  {
  }

  /** A build record agrees with the element it was read into. */
  lemma BuildConsistent(e: Node)
    requires e.Element? && ParseBuild(e).Success?
    ensures Consistent(ParseBuild(e).value)
  {
  }

  /** Every build record read from a run of siblings agrees with its element. */
  lemma {:induction false} GroupConsistent(cs: seq<Node>)
    requires ParseGroup(cs).Success?
    ensures forall j | 0 <= j < |ParseGroup(cs).value.builds| :: Consistent(ParseGroup(cs).value.builds[j])
    decreases |cs|
  {
    if cs != [] {
      var n := |cs| - 1;
      GroupConsistent(cs[..n]);
      if IsElement(cs[n], "build") {
        BuildConsistent(cs[n]);
      }
    }
  }

  /** One more sibling: the outcome of reading the longer run, from the shorter one and the new sibling. */
  lemma GroupSnocStep(cs: seq<Node>)
    requires cs != []
    ensures var pre := ParseGroup(cs[..|cs| - 1]);
            (pre.Failure? ==> ParseGroup(cs) == Failure(pre.error)) &&
            (pre.Success? ==> ParseGroup(cs) == GroupStep(pre.value, cs[|cs| - 1]))
  {
  }

  /** A `<build>` sibling adds its own record, or its error; any other sibling adds nothing. */
  lemma GroupStepReads(g: Group, last: Node)
    requires Elements(g.builds) == Tagged(g.children, "build")
    ensures IsElement(last, "build") ==>
              (GroupStep(g, last).Success? <==> ParseBuild(last).Success?) &&
              (GroupStep(g, last).Success? ==> GroupStep(g, last).value.builds == g.builds + [ParseBuild(last).value])
    ensures !IsElement(last, "build") ==> GroupStep(g, last).Success? && GroupStep(g, last).value.builds == g.builds
  {
  }

  /** Every node of `bs` is an element that reads as a build on its own. */
  predicate AllRead(bs: seq<Node>) {
    forall j | 0 <= j < |bs| :: bs[j].Element? && ParseBuild(bs[j]).Success?
  }

  /** `builds` holds, in order, each node of `bs` read as a build on its own. */
  predicate ReadsEach(bs: seq<Node>, builds: seq<BuildInfo>) {
    |builds| == |bs| && forall j | 0 <= j < |bs| :: bs[j].Element? && ParseBuild(bs[j]) == Success(builds[j])
  }

  lemma AllReadSnoc(pre: seq<Node>, x: Node)
    ensures AllRead(pre + [x]) <==> AllRead(pre) && x.Element? && ParseBuild(x).Success?
  {
    if AllRead(pre + [x]) {
      assert (pre + [x])[|pre|] == x;
      forall j | 0 <= j < |pre| ensures pre[j].Element? && ParseBuild(pre[j]).Success? {
        assert (pre + [x])[j] == pre[j];
      }
    }
  }

  lemma ReadsEachSnoc(pre: seq<Node>, builds: seq<BuildInfo>, x: Node, b: BuildInfo)
    requires ReadsEach(pre, builds) && x.Element? && ParseBuild(x) == Success(b)
    ensures ReadsEach(pre + [x], builds + [b])
  {
    forall j | 0 <= j < |pre| + 1
      ensures (pre + [x])[j].Element? && ParseBuild((pre + [x])[j]) == Success((builds + [b])[j])
    {
      if j < |pre| {
        assert (pre + [x])[j] == pre[j] && (builds + [b])[j] == builds[j];
      }
    }
  }

  lemma AllReadAppend(a: seq<Node>, b: seq<Node>)
    ensures AllRead(a + b) <==> AllRead(a) && AllRead(b)
  {
    if AllRead(a + b) {
      forall j | 0 <= j < |a| ensures a[j].Element? && ParseBuild(a[j]).Success? {
        assert (a + b)[j] == a[j];
      }
      forall j | 0 <= j < |b| ensures b[j].Element? && ParseBuild(b[j]).Success? {
        assert (a + b)[|a| + j] == b[j];
      }
    }
  }

  lemma ReadsEachAppend(a: seq<Node>, x: seq<BuildInfo>, b: seq<Node>, y: seq<BuildInfo>)
    requires ReadsEach(a, x) && ReadsEach(b, y)
    ensures ReadsEach(a + b, x + y)
  {
    forall j | 0 <= j < |a| + |b|
      ensures (a + b)[j].Element? && ParseBuild((a + b)[j]) == Success((x + y)[j])
    {
      if j < |a| {
        assert (a + b)[j] == a[j] && (x + y)[j] == x[j];
      } else {
        assert (a + b)[j] == b[j - |a|] && (x + y)[j] == y[j - |a|];
      }
    }
  }

  /** Reading a run of siblings succeeds exactly when every `<build>` among them reads on its own. */
  lemma {:induction false} GroupReadsAll(cs: seq<Node>)
    ensures ParseGroup(cs).Success? <==> AllRead(Tagged(cs, "build"))
    decreases |cs|
  {
    if cs == [] {
      assert Tagged(cs, "build") == [];
    } else {
      var n := |cs| - 1;
      var pre := Tagged(cs[..n], "build");
      GroupReadsAll(cs[..n]);
      GroupSnocStep(cs);
      AllReadSnoc(pre, cs[n]);
      if ParseGroup(cs[..n]).Success? {
        GroupStepReads(ParseGroup(cs[..n]).value, cs[n]);
      }
      if IsElement(cs[n], "build") {
        assert Tagged(cs, "build") == pre + [cs[n]];
      } else {
        assert Tagged(cs, "build") == pre;
      }
    }
  }

  /** The j-th record read from a run of siblings is the j-th original `<build>` sibling read on its own. */
  lemma {:induction false} GroupReadsEach(cs: seq<Node>)
    requires ParseGroup(cs).Success?
    ensures ReadsEach(Tagged(cs, "build"), ParseGroup(cs).value.builds)
    decreases |cs|
  {
    if cs == [] {
      assert Tagged(cs, "build") == [];
    } else {
      var n := |cs| - 1;
      var pre := Tagged(cs[..n], "build");
      GroupSnocStep(cs);
      GroupReadsEach(cs[..n]);
      var g := ParseGroup(cs[..n]).value;
      GroupStepReads(g, cs[n]);
      if IsElement(cs[n], "build") {
        assert Tagged(cs, "build") == pre + [cs[n]];
        ReadsEachSnoc(pre, g.builds, cs[n], ParseBuild(cs[n]).value);
      } else {
        assert Tagged(cs, "build") == pre;
      }
    }
  }

  lemma NestedGrow(bs: seq<BuildInfo>, cs: seq<Node>, group: string, other: string, y: Node, more: seq<BuildInfo>)
    requires Elements(bs) == ItemsUnder(cs, group, "build") && IsElement(y, group) && group != other
    requires Elements(more) == Tagged(y.children, "build")
    ensures Elements(bs + more) == ItemsUnder(cs + [y], group, "build")
  {
    ElementsAppend(bs, more);
    ItemsUnderSnoc(cs, y, group, "build");
  }

  lemma NestedKeep(bs: seq<BuildInfo>, cs: seq<Node>, group: string, y: Node)
    requires Elements(bs) == ItemsUnder(cs, group, "build") && !IsElement(y, group)
    ensures Elements(bs) == ItemsUnder(cs + [y], group, "build")
  {
    ItemsUnderSnoc(cs, y, group, "build");
    assert ItemsUnder(cs, group, "build") + [] == ItemsUnder(cs, group, "build");
  }

  /** One more child of a build: the outcome of reading the longer run, from the shorter one and the new child. */
  lemma NestSnocStep(cs: seq<Node>)
    requires cs != []
    ensures var pre := ParseNested(cs[..|cs| - 1]);
            (pre.Failure? ==> ParseNested(cs) == Failure(pre.error)) &&
            (pre.Success? ==> ParseNested(cs) == NestStep(pre.value, cs[|cs| - 1]))
  {
  }

  /** A `<components>` or `<directcomponents>` child adds the builds its group reads, or its error. */
  lemma NestStepReads(r: Nested, last: Node)
    requires Elements(r.components) == ItemsUnder(r.children, "components", "build")
    requires Elements(r.directcomponents) == ItemsUnder(r.children, "directcomponents", "build")
    ensures IsElement(last, "components") ==>
              (NestStep(r, last).Success? <==> ParseGroup(last.children).Success?) &&
              (NestStep(r, last).Success? ==>
                 NestStep(r, last).value.components == r.components + ParseGroup(last.children).value.builds &&
                 NestStep(r, last).value.directcomponents == r.directcomponents)
    ensures IsElement(last, "directcomponents") ==>
              (NestStep(r, last).Success? <==> ParseGroup(last.children).Success?) &&
              (NestStep(r, last).Success? ==>
                 NestStep(r, last).value.components == r.components &&
                 NestStep(r, last).value.directcomponents == r.directcomponents + ParseGroup(last.children).value.builds)
    ensures !IsElement(last, "components") && !IsElement(last, "directcomponents") ==>
              NestStep(r, last).Success? && NestStep(r, last).value.components == r.components &&
              NestStep(r, last).value.directcomponents == r.directcomponents
  {
  }

  /** Reading the children of a build succeeds exactly when every build in its component groups reads on its own. */
  lemma {:induction false} NestedReadsAll(cs: seq<Node>)
    ensures ParseNested(cs).Success? <==>
              AllRead(ItemsUnder(cs, "components", "build")) && AllRead(ItemsUnder(cs, "directcomponents", "build"))
    decreases |cs|
  {
    if cs == [] {
      assert ItemsUnder(cs, "components", "build") == [] && ItemsUnder(cs, "directcomponents", "build") == [];
    } else {
      var n, last := |cs| - 1, cs[|cs| - 1];
      var pc, pd := ItemsUnder(cs[..n], "components", "build"), ItemsUnder(cs[..n], "directcomponents", "build");
      NestedReadsAll(cs[..n]);
      NestSnocStep(cs);
      if ParseNested(cs[..n]).Success? {
        NestStepReads(ParseNested(cs[..n]).value, last);
      }
      var mc := if IsElement(last, "components") then Tagged(last.children, "build") else [];
      var md := if IsElement(last, "directcomponents") then Tagged(last.children, "build") else [];
      assert ItemsUnder(cs, "components", "build") == pc + mc;
      assert ItemsUnder(cs, "directcomponents", "build") == pd + md;
      AllReadAppend(pc, mc);
      AllReadAppend(pd, md);
      AllReadAppend([], []);
      if IsElement(last, "components") || IsElement(last, "directcomponents") {
        GroupReadsAll(last.children);
      }
    }
  }

  /** The component lists of a build hold, in order, each build of its component groups read on its own. */
  lemma {:induction false} NestedReadsEach(cs: seq<Node>)
    requires ParseNested(cs).Success?
    ensures ReadsEach(ItemsUnder(cs, "components", "build"), ParseNested(cs).value.components)
    ensures ReadsEach(ItemsUnder(cs, "directcomponents", "build"), ParseNested(cs).value.directcomponents)
    decreases |cs|
  {
    if cs == [] {
      assert ItemsUnder(cs, "components", "build") == [] && ItemsUnder(cs, "directcomponents", "build") == [];
    } else {
      var n, last := |cs| - 1, cs[|cs| - 1];
      var pc, pd := ItemsUnder(cs[..n], "components", "build"), ItemsUnder(cs[..n], "directcomponents", "build");
      NestSnocStep(cs);
      NestedReadsEach(cs[..n]);
      var r := ParseNested(cs[..n]).value;
      NestStepReads(r, last);
      assert ItemsUnder(cs, "components", "build") ==
             pc + (if IsElement(last, "components") then Tagged(last.children, "build") else []);
      assert ItemsUnder(cs, "directcomponents", "build") ==
             pd + (if IsElement(last, "directcomponents") then Tagged(last.children, "build") else []);
      if IsElement(last, "components") {
        GroupReadsEach(last.children);
        ReadsEachAppend(pc, r.components, Tagged(last.children, "build"), ParseGroup(last.children).value.builds);
        assert pd + [] == pd;
      } else if IsElement(last, "directcomponents") {
        GroupReadsEach(last.children);
        ReadsEachAppend(pd, r.directcomponents, Tagged(last.children, "build"), ParseGroup(last.children).value.builds);
        assert pc + [] == pc;
      } else {
        assert pc + [] == pc && pd + [] == pd;
      }
    }
  }

  /** The children of a build with its `components` and `directcomponents` groups read. */
  datatype Nested = Nested(components: seq<BuildInfo>, directcomponents: seq<BuildInfo>, children: seq<Node>)

  function ParseNested(cs: seq<Node>): (r: Result<Nested, ManifestError>)
    ensures r.Success? ==> Normalised(cs, r.value.children, {"components", "directcomponents"})
    ensures r.Success? ==> Elements(r.value.components) == ItemsUnder(r.value.children, "components", "build")
    ensures r.Success? ==> Elements(r.value.directcomponents) == ItemsUnder(r.value.children, "directcomponents", "build")
    decreases cs, 1
  {
    if cs == [] then Success(Nested([], [], []))
    else
      var n := |cs| - 1;
      var r :- ParseNested(cs[..n]);
      var r' :- NestStep(r, cs[n]);
      NormalisedStep(cs, r.children, r'.children, {"components", "directcomponents"});
      Success(r')
  }

  /** One more child of a build: a group of components is read, anything else kept as it is. */
  function NestStep(r: Nested, last: Node): (r': Result<Nested, ManifestError>)
    requires Elements(r.components) == ItemsUnder(r.children, "components", "build")
    requires Elements(r.directcomponents) == ItemsUnder(r.children, "directcomponents", "build")
    ensures r'.Success? ==> |r'.value.children| == |r.children| + 1 && r'.value.children == r.children + [r'.value.children[|r.children|]]
    ensures r'.Success? ==> var y := r'.value.children[|r.children|];
              SameTag(last, y) && (!(last.Element? && last.tag in {"components", "directcomponents"}) ==> y == last)
    ensures r'.Success? ==> Elements(r'.value.components) == ItemsUnder(r'.value.children, "components", "build")
    ensures r'.Success? ==> Elements(r'.value.directcomponents) == ItemsUnder(r'.value.children, "directcomponents", "build")
    decreases last, 0
  {
    if IsElement(last, "components") then
      var g :- ParseGroup(last.children);
      var y := last.(children := g.children);
      NestedGrow(r.components, r.children, "components", "directcomponents", y, g.builds);
      NestedKeep(r.directcomponents, r.children, "directcomponents", y);
      Success(Nested(r.components + g.builds, r.directcomponents, r.children + [y]))
    else if IsElement(last, "directcomponents") then
      var g :- ParseGroup(last.children);
      var y := last.(children := g.children);
      NestedGrow(r.directcomponents, r.children, "directcomponents", "components", y, g.builds);
      NestedKeep(r.components, r.children, "components", y);
      Success(Nested(r.components, r.directcomponents + g.builds, r.children + [y]))
    else
      NestedKeep(r.components, r.children, "components", last);
      NestedKeep(r.directcomponents, r.children, "directcomponents", last);
      Success(Nested(r.components, r.directcomponents, r.children + [last]))
  }


  /** Reading leaves as many children with any tag as there were. */
  lemma {:induction false} TaggedNormalised(cs: seq<Node>, out: seq<Node>, changed: set<string>, tag: string)
    requires Normalised(cs, out, changed)
    ensures |Tagged(out, tag)| == |Tagged(cs, tag)|
    decreases |cs|
  {
    if cs != [] {
      var n := |cs| - 1;
      assert Normalised(cs[..n], out[..n], changed);
      TaggedNormalised(cs[..n], out[..n], changed, tag);
      TaggedSnoc(cs[..n], cs[n], tag);
      TaggedSnoc(out[..n], out[n], tag);
      assert cs[..n] + [cs[n]] == cs && out[..n] + [out[n]] == out;
    }
  }

  // ---------------------------------------------------------------- reading a manifest

  /** A manifest after loading: its version text, where its `<versioninfo>` is, the normalised tree and its builds. */
  datatype Loaded = Loaded(version: string, vpath: seq<nat>, doc: Node, builds: seq<BuildInfo>)

  /**
   * Loading a manifest whose root element is `root`: the version must be a number, exactly one
   * `<versioninfo>` must lie below the root, and every `<build>` child of it is read in order.
   */
  function ParseManifest(root: Node): (r: Result<Loaded, ManifestError>)
    requires root.Element?
    ensures !IsFloatLiteral(Attr(root, "version")) ==> r == Failure(NotANumber(Attr(root, "version")))
    ensures IsFloatLiteral(Attr(root, "version")) && OccSeq(root.children, "versioninfo") == 0 ==> r == Failure(NoVersionInfo)
    ensures IsFloatLiteral(Attr(root, "version")) && OccSeq(root.children, "versioninfo") > 1 ==> r == Failure(ManyVersionInfo)
    ensures r.Success? ==> var m := r.value;
              OccSeq(root.children, "versioninfo") == 1 && m.version == Attr(root, "version") &&
              |m.vpath| > 0 && ValidPath(root, m.vpath) && IsElement(At(root, m.vpath), "versioninfo") &&
              ValidPath(m.doc, m.vpath) && m.doc == UpdateAt(root, m.vpath, At(m.doc, m.vpath)) &&
              IsElement(At(m.doc, m.vpath), "versioninfo") && At(m.doc, m.vpath).attrs == At(root, m.vpath).attrs &&
              Normalised(At(root, m.vpath).children, At(m.doc, m.vpath).children, {"build"}) &&
              Elements(m.builds) == Tagged(At(m.doc, m.vpath).children, "build") &&
              forall j | 0 <= j < |m.builds| :: Consistent(m.builds[j])
    ensures IsFloatLiteral(Attr(root, "version")) && OccSeq(root.children, "versioninfo") == 1 ==>
              (r.Success? <==> AllRead(Tagged(At(root, LocateVersionInfo(root)).children, "build")))
    ensures r.Success? ==> ReadsEach(Tagged(At(root, r.value.vpath).children, "build"), r.value.builds)
  {
    var version := Attr(root, "version");
    if !IsFloatLiteral(version) then Failure(NotANumber(version))
    else
      var count := OccSeq(root.children, "versioninfo");
      if count == 0 then Failure(NoVersionInfo)
      else if count > 1 then Failure(ManyVersionInfo)
      else
        var vpath := LocateVersionInfo(root);
        var vi := At(root, vpath);
        GroupReadsAll(vi.children);
        var g :- ParseGroup(vi.children);
        GroupReadsEach(vi.children);
        GroupConsistent(vi.children);
        var vi' := vi.(children := g.children);
        UpdateAtTarget(root, vpath, vi');
        Success(Loaded(version, vpath, UpdateAt(root, vpath, vi'), g.builds))
  }

  /** Where `getElementsByTagName` finds the first `<versioninfo>` below the root. */
  function LocateVersionInfo(root: Node): (p: seq<nat>)
    requires root.Element? && OccSeq(root.children, "versioninfo") > 0
    ensures |p| > 0 && ValidPath(root, p) && IsElement(At(root, p), "versioninfo")
  {
    var p := FirstPathSeq(root.children, "versioninfo");
    assert [p[0]] + p[1..] == p;
    p
  }

  /** A loaded manifest holds one build per `<build>` child of its `<versioninfo>`. */
  lemma BuildPerChild(root: Node)
    requires root.Element? && ParseManifest(root).Success?
    ensures var m := ParseManifest(root).value;
            |m.builds| == |Tagged(At(root, m.vpath).children, "build")|
  {
    var m := ParseManifest(root).value;
    TaggedNormalised(At(root, m.vpath).children, At(m.doc, m.vpath).children, {"build"}, "build");
  }

  // ---------------------------------------------------------------- queries

  /** `builds(product)`: everything when no product is given, else the builds of that product. */
  function FilterBy<T>(xs: seq<T>, key: T -> string, product: Option<string>): (r: seq<T>)
    ensures |r| <= |xs|
  {
    match product
    case None => xs
    case Some(p) =>
      if xs == [] then []
      else FilterBy(xs[..|xs| - 1], key, product) + (if key(xs[|xs| - 1]) == p then [xs[|xs| - 1]] else [])
  }

  /** Positions of the entries with the given key, in increasing order. */
  function MatchIndices<T>(xs: seq<T>, key: T -> string, p: string): (ix: seq<nat>)
    ensures forall j | 0 <= j < |ix| :: ix[j] < |xs| && key(xs[ix[j]]) == p
    ensures forall j, k | 0 <= j < k < |ix| :: ix[j] < ix[k]
    ensures forall i | 0 <= i < |xs| :: key(xs[i]) == p ==> i in ix
  {
    if xs == [] then []
    else
      var n := |xs| - 1;
      var ix := MatchIndices(xs[..n], key, p);
      assert forall i | 0 <= i < n :: xs[..n][i] == xs[i];
      if key(xs[n]) == p then ix + [n] else ix
  }

  /** The filtered list is exactly the entries at the matching positions, in their original order. */
  lemma {:induction false} FilterExact<T>(xs: seq<T>, key: T -> string, p: string)
    ensures var r, ix := FilterBy(xs, key, Some(p)), MatchIndices(xs, key, p);
            |r| == |ix| && forall j | 0 <= j < |ix| :: r[j] == xs[ix[j]]
  {
    if xs != [] {
      var n := |xs| - 1;
      FilterExact(xs[..n], key, p);
      var r0, ix0 := FilterBy(xs[..n], key, Some(p)), MatchIndices(xs[..n], key, p);
      var r, ix := FilterBy(xs, key, Some(p)), MatchIndices(xs, key, p);
      var hit := key(xs[n]) == p;
      assert r == r0 + (if hit then [xs[n]] else []);
      assert ix == (if hit then ix0 + [n] else ix0);
      forall j | 0 <= j < |ix0|
        ensures r[j] == xs[ix[j]]
      {
        assert r[j] == r0[j] && ix[j] == ix0[j];
        assert xs[..n][ix0[j]] == xs[ix0[j]];
      }
    }
  }

  /** Without a product every build is returned; with one, only builds of that product. */
  lemma FilterProducts<T>(xs: seq<T>, key: T -> string, p: string)
    ensures FilterBy(xs, key, None) == xs
    ensures forall x | x in FilterBy(xs, key, Some(p)) :: x in xs && key(x) == p
  {
    FilterExact(xs, key, p);
    var r, ix := FilterBy(xs, key, Some(p)), MatchIndices(xs, key, p);
    forall x | x in r
      ensures x in xs && key(x) == p
    {
      var j :| 0 <= j < |r| && r[j] == x;
      assert x == xs[ix[j]];
    }
  }

  // ---------------------------------------------------------------- line rejoining

  /** One line of a manifest file as it is kept: stripped, with a space after a closing quote. */
  function Piece(line: string): string {
    var t := Strip(line);
    if EndsWith(t, "\"") then t + " " else t
  }

  /** Every line turned into its piece by `piece`, and the pieces concatenated in order. */
  function JoinedBy(lines: seq<string>, piece: string -> string): string {
    if lines == [] then "" else JoinedBy(lines[..|lines| - 1], piece) + piece(lines[|lines| - 1])
  }

  function Joined(lines: seq<string>): string {
    JoinedBy(lines, Piece)
  }

  /** The text handed to the XML parser: every line stripped and the results concatenated. */
  method JoinLines(lines: seq<string>) returns (text: string)
    ensures text == Joined(lines)
  {
    text := "";
    var i := 0;
    while i < |lines|
      invariant 0 <= i <= |lines|
      invariant text == JoinedBy(lines[..i], Piece)
    {
      var line := Strip(lines[i]);
      if EndsWith(line, "\"") {
        line := line + " ";
      }
      assert lines[..i + 1][..i] == lines[..i];
      text := text + line;
      i := i + 1;
    }
    assert lines[..|lines|] == lines;
  }

  /** Joining two runs of lines one after the other is joining each and concatenating. */
  lemma {:induction false} JoinedAppend(a: seq<string>, b: seq<string>, piece: string -> string)
    ensures JoinedBy(a + b, piece) == JoinedBy(a, piece) + JoinedBy(b, piece)
    decreases |b|
  {
    if b == [] {
      assert a + b == a;
    } else {
      var m := |b| - 1;
      assert (a + b)[..|a + b| - 1] == a + b[..m];
      assert (a + b)[|a + b| - 1] == b[m];
      JoinedAppend(a, b[..m], piece);
    }
  }

  /**
   * A line ending in a quote keeps its quote and is followed by a space in the joined text, so
   * an attribute continued on the next line is never glued to the previous one.
   */
  lemma QuoteThenSpace(lines: seq<string>, i: nat)
    requires i < |lines| && EndsWith(Strip(lines[i]), "\"")
    ensures var at := |Joined(lines[..i])| + |Strip(lines[i])|;
            at < |Joined(lines)| && Joined(lines)[at - 1] == '"' && Joined(lines)[at] == ' '
  {
    JoinedAround(lines, i);
    QuoteAt(Joined(lines), Joined(lines[..i]), Strip(lines[i]), JoinedBy(lines[i + 1..], Piece));
  }

  /** Around a line ending in a quote, the joined text holds that line stripped and a space. */
  lemma JoinedAround(lines: seq<string>, i: nat)
    requires i < |lines| && EndsWith(Strip(lines[i]), "\"")
    ensures Joined(lines) == Joined(lines[..i]) + ((Strip(lines[i]) + " ") + JoinedBy(lines[i + 1..], Piece))
  {
    PieceAt(lines, i, Piece);
  }

  /** Text before, the quoted piece and its space, then the text after. */
  lemma QuoteAt(all: string, pre: string, t: string, tail: string)
    requires EndsWith(t, "\"") && all == pre + ((t + " ") + tail)
    ensures |pre| + |t| < |all| && all[|pre| + |t| - 1] == '"' && all[|pre| + |t|] == ' '
  {
    assert t[|t| - 1] == '"';
  }

  /** The joined text is the pieces of the lines before `i`, then the piece of line `i`, then the rest. */
  lemma {:induction false} PieceAt(lines: seq<string>, i: nat, piece: string -> string)
    requires i < |lines|
    ensures JoinedBy(lines, piece) ==
            JoinedBy(lines[..i], piece) + (piece(lines[i]) + JoinedBy(lines[i + 1..], piece))
    decreases |lines|
  {
    var n := |lines| - 1;
    var init := lines[..n];
    if i == n {
      assert lines[i + 1..] == [];
    } else {
      var rest := lines[i + 1..];
      assert init[..i] == lines[..i] && init[i] == lines[i];
      assert init[i + 1..] == rest[..|rest| - 1] && rest[|rest| - 1] == lines[n];
      PieceAt(init, i, piece);
    }
  }
}
