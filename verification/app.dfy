/** The client-version value object: the device carrier, version string and
    network tag an app request reports, the predicates derived from them by
    substring tests, and the packed three-field version comparison. */
module App {
  import opened GoStrings

  /** The separator the version strings are split on: the two characters
      backslash and dot, as the Go literal "\\." denotes. */
  const VersionSeparator := "\\."

  /** The separator a version such as 2.3.1 actually uses. */
  const Dot := "."

  /** The carrier of the online browser version. */
  const WebCarrier := "Web"

  /** Weights of the major, minor and patch fields in a packed version. */
  const MajorWeight := 1000000
  const MinorWeight := 1000

  datatype AppVersion = AppVersion(device: string, version: string, network: string)
  {
    /** The device carrier; with the other two fields it rebuilds the value. */
    function Device(): (d: string)
      ensures AppVersion(d, version, network) == this
    {
      device
    }

    /** The version string, such as 2.3.1. */
    function Version(): (v: string)
      ensures AppVersion(device, v, network) == this
    {
      version
    }

    /** The network tag, such as 4g or wifi. */
    function Network(): (n: string)
      ensures AppVersion(device, version, n) == this
    {
      network
    }

    /** The request came over a wifi network. */
    function IsWifi(): (r: bool)
      ensures r <==> exists i :: OccursAt(network, "wifi", i)
    {
      Contains(network, "wifi")
    }

    /** Documented as "the request came from a client app", packaged or
        native; the test only looks for "Native", so a packaged carrier such
        as iOS-Web is not a client (`PackagedWebCarriersMisclassified`). */
    function IsClient(): (r: bool)
      ensures r <==> exists i :: OccursAt(device, "Native", i)
    {
      Contains(device, "Native")
    }

    /** Documented as "the request came from the online browser version";
        the test looks for "Web" anywhere, so packaged carriers such as
        iOS-Web count as web too. */
    function IsWeb(): (r: bool)
      ensures r <==> exists i :: OccursAt(device, "Web", i)
    {
      Contains(device, "Web")
    }

    /** The device reduced to one of two kinds: "Native" for native clients,
        "Web" for everything else. */
    function SimpleDevice(): (r: string)
      ensures r == "Native" || r == "Web"
      ensures r == "Native" <==> exists i :: OccursAt(device, "Native", i)
    {
      if IsClient() then "Native" else "Web"
    }

    /** The classification the documentation gives: every carrier but the
        online browser version is a client app, native or packaged. */
    function IsClientAsDocumented(): (r: bool)
      ensures r <==> !IsWebAsDocumented()
    {
      device != WebCarrier
    }

    /** The documented web test: the request came from the online browser
        version, whose carrier is plain "Web". */
    function IsWebAsDocumented(): bool
    {
      device == WebCarrier
    }

    /** Compares this version with `other`, both split on `VersionSeparator`
        and packed by `Packed`; `parse` stands for the integer parser the
        fields go through. The result is -1 when this version packs to less
        than `other`, and 0 otherwise: a newer version compares like an equal
        one. */
    function CompareVersion(other: string, parse: string -> int): (r: int)
      requires |Split(version, VersionSeparator)| >= 3
      requires |Split(other, VersionSeparator)| >= 3
      ensures r == 0 || r == -1
      ensures r == -1 <==>
        Packed(Split(version, VersionSeparator), parse) < Packed(Split(other, VersionSeparator), parse)
    {
      var mine := Packed(Split(version, VersionSeparator), parse);
      var his := Packed(Split(other, VersionSeparator), parse);
      if mine == his then 0
      else if mine > his then 0
      else -1
    }

    /** The comparison the documentation describes: fields split on a plain
        dot, and 1, 0 or -1 as this version is newer than, equal to or older
        than `other`. */
    function CompareVersionIntended(other: string, parse: string -> int): (r: int)
      requires |Split(version, Dot)| >= 3 && |Split(other, Dot)| >= 3
      ensures r == 1 <==> Packed(Split(version, Dot), parse) > Packed(Split(other, Dot), parse)
      ensures r == 0 <==> Packed(Split(version, Dot), parse) == Packed(Split(other, Dot), parse)
      ensures r == -1 <==> Packed(Split(version, Dot), parse) < Packed(Split(other, Dot), parse)
    {
      var mine := Packed(Split(version, Dot), parse);
      var his := Packed(Split(other, Dot), parse);
      if mine == his then 0
      else if mine > his then 1
      else -1
    }
  }

  /** Builds the value from the three strings a request carries. */
  function NewAppVersion(device: string, version: string, network: string): (av: AppVersion)
    ensures av.Device() == device && av.Version() == version && av.Network() == network
  {
    AppVersion(device, version, network)
  }

  /** The first three fields of a version, parsed and packed into one number. */
  function Packed(fields: seq<string>, parse: string -> int): int
    requires |fields| >= 3
  {
    parse(fields[0]) * MajorWeight + parse(fields[1]) * MinorWeight + parse(fields[2])
  }

  /** Each of the three leading fields parses to a number below 1000. */
  predicate FieldsInRange(fields: seq<string>, parse: string -> int)
    requires |fields| >= 3
  {
    forall k :: 0 <= k < 3 ==> 0 <= parse(fields[k]) < MinorWeight
  }

  /** Lexicographic order on (major, minor, patch). */
  predicate FieldsBefore(a: seq<string>, b: seq<string>, parse: string -> int)
    requires |a| >= 3 && |b| >= 3
  {
    parse(a[0]) < parse(b[0])
    || (parse(a[0]) == parse(b[0]) && parse(a[1]) < parse(b[1]))
    || (parse(a[0]) == parse(b[0]) && parse(a[1]) == parse(b[1]) && parse(a[2]) < parse(b[2]))
  }

  /** While every field stays below 1000, packing preserves the
      lexicographic order of (major, minor, patch), and equal packed values
      mean equal fields. */
  lemma PackedOrdersLexicographically(a: seq<string>, b: seq<string>, parse: string -> int)
    requires |a| >= 3 && |b| >= 3
    requires FieldsInRange(a, parse) && FieldsInRange(b, parse)
    ensures Packed(a, parse) < Packed(b, parse) <==> FieldsBefore(a, b, parse)
    ensures Packed(a, parse) == Packed(b, parse) <==>
      (forall k :: 0 <= k < 3 ==> parse(a[k]) == parse(b[k]))
  {
    assert 0 <= parse(a[0]) < 1000 && 0 <= parse(a[1]) < 1000 && 0 <= parse(a[2]) < 1000;
    assert 0 <= parse(b[0]) < 1000 && 0 <= parse(b[1]) < 1000 && 0 <= parse(b[2]) < 1000;
  }

  /** With fields in range, `CompareVersion` answers -1 exactly when this
      version is lexicographically older, and 0 for both equal and newer
      versions. */
  lemma CompareVersionLexicographic(av: AppVersion, other: string, parse: string -> int)
    requires |Split(av.version, VersionSeparator)| >= 3
    requires |Split(other, VersionSeparator)| >= 3
    requires FieldsInRange(Split(av.version, VersionSeparator), parse)
    requires FieldsInRange(Split(other, VersionSeparator), parse)
    ensures av.CompareVersion(other, parse) == -1 <==>
      FieldsBefore(Split(av.version, VersionSeparator), Split(other, VersionSeparator), parse)
    ensures av.CompareVersion(other, parse) == 0 <==>
      !FieldsBefore(Split(av.version, VersionSeparator), Split(other, VersionSeparator), parse)
  {
    PackedOrdersLexicographically(Split(av.version, VersionSeparator), Split(other, VersionSeparator), parse);
  }

  /** The comparison as written is not antisymmetric: for two versions that
      pack differently, comparing either way round sums to -1, where a
      three-way comparison would sum to 0. */
  lemma CompareVersionNotAntisymmetric(a: string, b: string, parse: string -> int)
    requires |Split(a, VersionSeparator)| >= 3 && |Split(b, VersionSeparator)| >= 3
    requires Packed(Split(a, VersionSeparator), parse) != Packed(Split(b, VersionSeparator), parse)
    ensures AppVersion("", a, "").CompareVersion(b, parse) + AppVersion("", b, "").CompareVersion(a, parse) == -1
  {
  }

  /** The intended comparison is antisymmetric. */
  lemma CompareVersionIntendedAntisymmetric(a: string, b: string, parse: string -> int)
    requires |Split(a, Dot)| >= 3 && |Split(b, Dot)| >= 3
    ensures AppVersion("", a, "").CompareVersionIntended(b, parse)
      == -AppVersion("", b, "").CompareVersionIntended(a, parse)
  {
  }

  /** A version written with plain dots, such as 2.3.1, holds no backslash,
      so splitting it on `VersionSeparator` yields one field: it cannot meet
      the requirement of `CompareVersion`, where the source indexes a missing
      field. */
  lemma PlainVersionIsOneField(v: string)
    requires '\\' !in v
    ensures Split(v, VersionSeparator) == [v]
    ensures |Split(v, VersionSeparator)| < 3
  {
    NoSeparatorOnePiece(v, VersionSeparator);
  }

  /** Under the intended separator, a version made of three dot-free fields
      splits into exactly those fields. */
  lemma {:induction false} DottedVersionSplits(major: string, minor: string, patch: string)
    requires '.' !in major && '.' !in minor && '.' !in patch
    ensures Split(major + Dot + minor + Dot + patch, Dot) == [major, minor, patch]
  {
    assert major + Dot + minor + Dot + patch == major + Dot + (minor + Dot + patch);
    SplitAtFirst(major, Dot, minor + Dot + patch);
    SplitAtFirst(minor, Dot, patch);
    NoSeparatorOnePiece(patch, Dot);
  }

  /** A device named "<platform>-Native" is a native client, and one named
      "<platform>-Web" is a web client. */
  lemma {:induction false} SuffixClassifiesDevice(platform: string, version: string, network: string)
    ensures AppVersion(platform + "-Native", version, network).IsClient()
    ensures AppVersion(platform + "-Native", version, network).SimpleDevice() == "Native"
    ensures AppVersion(platform + "-Web", version, network).IsWeb()
  {
    var native := platform + "-Native";
    assert native[|platform| + 1..|platform| + 7] == "Native";
    assert OccursAt(native, "Native", |platform| + 1);
    var web := platform + "-Web";
    assert web[|platform| + 1..|platform| + 4] == "Web";
    assert OccursAt(web, "Web", |platform| + 1);
  }

  /** A device string without a capital N can hold no "Native", so it is
      classified as "Web". */
  lemma NoNativeMeansWeb(av: AppVersion)
    requires 'N' !in av.device
    ensures !av.IsClient() && av.SimpleDevice() == "Web"
  {
    assert forall i :: OccursAt(av.device, "Native", i) ==> av.device[i] == 'N';
  }

  /** The documented pair of carriers for one platform: "<platform>-Native"
      is classified as "Native" and "<platform>-Web" as "Web". */
  predicate PlatformClassified(platform: string, version: string, network: string)
  {
    AppVersion(platform + "-Native", version, network).SimpleDevice() == "Native"
    && AppVersion(platform + "-Web", version, network).SimpleDevice() == "Web"
  }

  lemma PlatformWithoutNClassified(platform: string, version: string, network: string)
    requires 'N' !in platform
    ensures PlatformClassified(platform, version, network)
  {
    SuffixClassifiesDevice(platform, version, network);
    assert forall c :: c in platform + "-Web" ==> c in platform || c in "-Web";
    NoNativeMeansWeb(AppVersion(platform + "-Web", version, network));
  }

  /** The platforms whose carriers the device documentation lists in a
      -Native and a -Web form. */
  const DocumentedPlatforms := ["iOS", "Android", "Windows", "Mac", "Linux"]

  /** Every carrier listed in the device documentation is classified as
      "Native" when its name ends in -Native and as "Web" otherwise. */
  lemma DocumentedDevicesClassified(version: string, network: string)
    ensures forall k :: 0 <= k < |DocumentedPlatforms| ==>
      PlatformClassified(DocumentedPlatforms[k], version, network)
    ensures AppVersion("Web", version, network).SimpleDevice() == "Web"
  {
    forall k | 0 <= k < |DocumentedPlatforms|
      ensures PlatformClassified(DocumentedPlatforms[k], version, network)
    {
      PlatformWithoutNClassified(DocumentedPlatforms[k], version, network);
    }
    NoNativeMeansWeb(AppVersion("Web", version, network));
  }

  /** The carriers packaged as web apps for a platform (iOS-Web, Android-Web,
      Windows-Web, Mac-Web, Linux-Web) are documented as client apps, yet
      the code classifies them as web and not as clients. */
  lemma PackagedWebCarriersMisclassified(version: string, network: string)
    ensures forall k :: 0 <= k < |DocumentedPlatforms| ==>
      var av := AppVersion(DocumentedPlatforms[k] + "-Web", version, network);
      !av.IsClient() && av.IsWeb() && av.SimpleDevice() == "Web" && av.IsClientAsDocumented()
  {
    forall k | 0 <= k < |DocumentedPlatforms|
      ensures var av := AppVersion(DocumentedPlatforms[k] + "-Web", version, network);
        !av.IsClient() && av.IsWeb() && av.SimpleDevice() == "Web" && av.IsClientAsDocumented()
    {
      var platform := DocumentedPlatforms[k];
      PlatformWithoutNClassified(platform, version, network);
      SuffixClassifiesDevice(platform, version, network);
      assert |platform + "-Web"| > |WebCarrier|;
    }
  }

  /** Under the documented classification every listed carrier is exactly
      one of client and web: both carriers of each platform are clients,
      and plain "Web" is the only web carrier. On the native carriers and on
      plain "Web" the code agrees with it. */
  lemma DocumentedClassification(version: string, network: string)
    ensures forall k :: 0 <= k < |DocumentedPlatforms| ==>
      var native := AppVersion(DocumentedPlatforms[k] + "-Native", version, network);
      var packaged := AppVersion(DocumentedPlatforms[k] + "-Web", version, network);
      native.IsClientAsDocumented() && !native.IsWebAsDocumented()
      && packaged.IsClientAsDocumented() && !packaged.IsWebAsDocumented()
      && native.IsClient() == native.IsClientAsDocumented()
    ensures var web := AppVersion(WebCarrier, version, network);
      web.IsWebAsDocumented() && !web.IsClientAsDocumented()
      && web.IsClient() == web.IsClientAsDocumented()
  {
    forall k | 0 <= k < |DocumentedPlatforms|
      ensures var native := AppVersion(DocumentedPlatforms[k] + "-Native", version, network);
        var packaged := AppVersion(DocumentedPlatforms[k] + "-Web", version, network);
        native.IsClientAsDocumented() && !native.IsWebAsDocumented()
        && packaged.IsClientAsDocumented() && !packaged.IsWebAsDocumented()
        && native.IsClient() == native.IsClientAsDocumented()
    {
      var platform := DocumentedPlatforms[k];
      SuffixClassifiesDevice(platform, version, network);
      assert |platform + "-Native"| > |WebCarrier|;
      assert |platform + "-Web"| > |WebCarrier|;
    }
    NoNativeMeansWeb(AppVersion(WebCarrier, version, network));
  }
}
