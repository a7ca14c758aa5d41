/** The webhook's versioned media type and the check of a request's
    Content-Type / Accept header against the supported versions. Header values
    are compared by plain string equality: no media-type parsing, case folding
    or parameter whitespace handling. */
module MediaType {
  import opened Wrappers
  import Strings

  const MediaTypeFormat: string := "application/external.dns.webhook+json;"
  /** Comma-separated list of the supported versions. */
  const SupportedMediaVersions: string := "1"

  /** Everything in a versioned media type before the version itself. */
  const VersionPrefix: string := MediaTypeFormat + "version="

  /** The media type of version `v`: the version prefix followed by `v`, so the
      version can be read back from the media type. */
  function MediaTypeVersion(v: string): (m: string)
    ensures Strings.HasPrefix(m, VersionPrefix)
    ensures m[|VersionPrefix|..] == v
  {
    MediaTypeFormat + "version=" + v
  }

  /** Two versions share a media type only if they are the same version. */
  lemma MediaTypeVersionInjective(v: string, w: string)
    requires MediaTypeVersion(v) == MediaTypeVersion(w)
    ensures v == w
  {
    assert v == MediaTypeVersion(v)[|VersionPrefix|..];
  }

  /** Whether a header value is this media type: exact string equality. */
  predicate Is(m: string, headerValue: string) {
    m == headerValue
  }

  /** `Is` does not trim, fold case or normalise parameters. */
  lemma IsIsExactEquality()
    ensures Is(MediaTypeVersion("1"), "application/external.dns.webhook+json;version=1")
    ensures !Is(MediaTypeVersion("1"), "application/external.dns.webhook+json;version=1 ")
    ensures !Is(MediaTypeVersion("1"), "application/external.dns.webhook+json; version=1")
    ensures !Is(MediaTypeVersion("1"), "Application/External.DNS.Webhook+JSON;version=1")
    ensures forall m, h :: Is(m, h) <==> m == h
  {
    var m := MediaTypeVersion("1");
    assert |m| != |"application/external.dns.webhook+json;version=1 "|;
    assert |m| != |"application/external.dns.webhook+json; version=1"|;
    assert m[0] == MediaTypeFormat[0] == 'a';
  }

  /** The supported versions, split on commas as strings.Split does. */
  function Versions(supported: string): (vs: seq<string>)
    ensures |vs| >= 1
    ensures Strings.Join(vs, ',') == supported
  {
    Strings.Split(supported, ',')
  }

  /** The first version in `vs` whose media type is exactly `value`. */
  function FirstMatch(vs: seq<string>, value: string): (r: Option<string>)
    ensures r.Some? <==> exists v :: v in vs && Is(MediaTypeVersion(v), value)
    ensures r.Some? ==> r.value in vs && MediaTypeVersion(r.value) == value
  {
    if |vs| == 0 then None
    else if Is(MediaTypeVersion(vs[0]), value) then Some(vs[0])
    else
      assert forall v :: v in vs ==> v == vs[0] || v in vs[1..];
      FirstMatch(vs[1..], value)
  }

  /** The list of supported media types for the error message, from entry `i`
      on. Entry `i` is followed by ", " exactly when `i < limit`, where the
      caller passes the byte length of the supported-versions STRING minus
      one, not the number of versions. */
  function SupportedTypesFrom(vs: seq<string>, i: nat, limit: int): string
    requires i <= |vs|
    decreases |vs| - i
  {
    if i == |vs| then ""
    else
      var sep := if i < limit then ", " else "";
      MediaTypeVersion(vs[i]) + sep + SupportedTypesFrom(vs, i + 1, limit)
  }

  /** The supported-types list as the source builds it: the separator bound
      is Go's `len` of the supported-versions string, its UTF-8 byte count,
      minus one. */
  function SupportedMediaTypesAsWritten(supported: string): string {
    SupportedTypesFrom(Versions(supported), 0, |Strings.Utf8(supported)| - 1)
  }

  /** The supported-types list with the bound the separator evidently means:
      the number of versions, minus one. */
  function SupportedMediaTypesString(supported: string): string {
    var vs := Versions(supported);
    SupportedTypesFrom(vs, 0, |vs| - 1)
  }

  /** The media types of the versions `vs`, in order. */
  function TypesOf(vs: seq<string>): (ms: seq<string>)
    ensures |ms| == |vs|
    ensures forall i :: 0 <= i < |vs| ==> ms[i] == MediaTypeVersion(vs[i])
  {
    if |vs| == 0 then [] else [MediaTypeVersion(vs[0])] + TypesOf(vs[1..])
  }

  /** The entries of `ms` separated by ", ", with no separator after the last. */
  function CommaList(ms: seq<string>): string {
    if |ms| == 0 then ""
    else if |ms| == 1 then ms[0]
    else ms[0] + ", " + CommaList(ms[1..])
  }

  lemma {:induction false} SupportedTypesFromListed(vs: seq<string>, i: nat)
    requires i <= |vs|
    ensures SupportedTypesFrom(vs, i, |vs| - 1) == CommaList(TypesOf(vs[i..]))
    decreases |vs| - i
  {
    if i < |vs| {
      SupportedTypesFromListed(vs, i + 1);
      assert vs[i..][1..] == vs[i + 1..];
      assert TypesOf(vs[i..])[1..] == TypesOf(vs[i + 1..]);
      if i + 1 == |vs| {
        assert SupportedTypesFrom(vs, i + 1, |vs| - 1) == "";
        assert MediaTypeVersion(vs[i]) + "" + "" == MediaTypeVersion(vs[i]);
      }
    }
  }

  /** The corrected list names every supported media type once, in order,
      separated by ", " and with nothing after the last one. */
  lemma SupportedMediaTypesListed(supported: string)
    ensures SupportedMediaTypesString(supported) == CommaList(TypesOf(Versions(supported)))
  {
    var vs := Versions(supported);
    SupportedTypesFromListed(vs, 0);
    assert vs[0..] == vs;
  }

  const ErrorPrefix: string := "Unsupported media type version: '"

  function UnsupportedMessage(value: string, supportedTypes: string): string {
    ErrorPrefix + value + "'. Supported media types are: '" + supportedTypes + "'"
  }

  /** The error message quotes the rejected value verbatim right after its fixed opening. */
  lemma MessageNamesValue(value: string, supportedTypes: string)
    ensures Strings.HasPrefix(UnsupportedMessage(value, supportedTypes), ErrorPrefix + value + "'")
  {
    var rest := ". Supported media types are: '" + supportedTypes + "'";
    assert UnsupportedMessage(value, supportedTypes) == (ErrorPrefix + value + "'") + rest;
    Strings.PrefixOfConcat(ErrorPrefix + value + "'", rest);
  }

  /** checkAndGetMediaTypeHeaderValue over an arbitrary supported-versions
      string, as written: the matching version, or an error naming the
      offending value and the supported media types listed with the
      string-length separator bound. */
  function CheckAndGetWith(supported: string, value: string): (r: Result<string, string>)
    ensures r.Success? <==> exists v :: v in Versions(supported) && MediaTypeVersion(v) == value
    ensures r.Success? ==> r.value in Versions(supported) && MediaTypeVersion(r.value) == value
    ensures r.Failure? ==> Strings.HasPrefix(r.error, ErrorPrefix + value + "'")
    ensures r.Failure? ==> r.error == UnsupportedMessage(value, SupportedMediaTypesAsWritten(supported))
  {
    CheckAndGetListing(supported, value, SupportedMediaTypesAsWritten(supported))
  }

  /** The header check with the evidently intended message: the supported
      media types separated by ", " with nothing after the last. */
  function CheckAndGetCorrected(supported: string, value: string): (r: Result<string, string>)
    ensures r.Success? <==> exists v :: v in Versions(supported) && MediaTypeVersion(v) == value
    ensures r.Success? ==> r.value in Versions(supported) && MediaTypeVersion(r.value) == value
    ensures r.Failure? ==> r.error == UnsupportedMessage(value, CommaList(TypesOf(Versions(supported))))
  {
    SupportedMediaTypesListed(supported);
    CheckAndGetListing(supported, value, SupportedMediaTypesString(supported))
  }

  /** The shared shape of both versions: the first matching version, or the
      error quoting `value` and the given list of supported types. */
  function CheckAndGetListing(supported: string, value: string, listed: string): (r: Result<string, string>)
    ensures r.Success? <==> exists v :: v in Versions(supported) && MediaTypeVersion(v) == value
    ensures r.Success? ==> r.value in Versions(supported) && MediaTypeVersion(r.value) == value
    ensures r.Failure? ==> Strings.HasPrefix(r.error, ErrorPrefix + value + "'")
    ensures r.Failure? ==> r.error == UnsupportedMessage(value, listed)
  {
    match FirstMatch(Versions(supported), value)
    case Some(v) => Success(v)
    case None =>
      MessageNamesValue(value, listed);
      Failure(UnsupportedMessage(value, listed))
  }

  /** The two versions accept the same headers with the same version, and
      with the shipped list they also give the same error. */
  lemma CheckAndGetVersionsAgree(supported: string, value: string)
    ensures CheckAndGetWith(supported, value).Success? == CheckAndGetCorrected(supported, value).Success?
    ensures CheckAndGetWith(supported, value).Success? ==>
              CheckAndGetWith(supported, value) == CheckAndGetCorrected(supported, value)
    ensures supported == SupportedMediaVersions ==>
              CheckAndGetWith(supported, value) == CheckAndGetCorrected(supported, value)
  {
    if supported == SupportedMediaVersions {
      ShippedSupportedTypes();
    }
  }

  /** The header check with the shipped versions: only the exact version-1
      media type is accepted, and it yields "1"; any other value is rejected
      with a message listing exactly the version-1 media type. */
  function CheckAndGetMediaTypeHeaderValue(value: string): (r: Result<string, string>)
    ensures r.Success? <==> value == MediaTypeVersion("1")
    ensures r.Success? ==> r.value == "1"
    ensures r.Failure? ==> r.error == UnsupportedMessage(value, MediaTypeVersion("1"))
    ensures r == CheckAndGetWith(SupportedMediaVersions, value)
  {
    VersionsOfShippedList();
    ShippedSupportedTypes();
    CheckAndGetVersionsAgree(SupportedMediaVersions, value);
    CheckAndGetCorrected(SupportedMediaVersions, value)
  }

  /** Rejecting a header under "1,2" as written leaves a stray ", " at the
      end of the supported-types list. */
  lemma TwoVersionMessage(value: string)
    requires value != MediaTypeVersion("1") && value != MediaTypeVersion("2")
    ensures CheckAndGetWith("1,2", value).Failure?
    ensures CheckAndGetWith("1,2", value).error
            == UnsupportedMessage(value, MediaTypeVersion("1") + ", " + MediaTypeVersion("2") + ", ")
    ensures CheckAndGetCorrected("1,2", value).error
            == UnsupportedMessage(value, MediaTypeVersion("1") + ", " + MediaTypeVersion("2"))
  {
    VersionsOfTwo();
    TwoVersionSeparator();
    assert !(exists v :: v in Versions("1,2") && MediaTypeVersion(v) == value);
  }

  lemma VersionsOfShippedList()
    ensures Versions(SupportedMediaVersions) == ["1"]
  {
    Strings.SplitJoin(["1"], ',');
  }

  /** Round trip: the media type of every supported version is accepted and
      yields that very version. */
  lemma {:induction false} MediaTypeRoundTrip(supported: string, v: string)
    requires v in Versions(supported)
    ensures CheckAndGetWith(supported, MediaTypeVersion(v)) == Success(v)
  {
    var r := CheckAndGetWith(supported, MediaTypeVersion(v));
    MediaTypeVersionInjective(r.value, v);
  }

  /** With the shipped list "1" both bounds put no separator anywhere: the
      message lists exactly the version-1 media type. */
  lemma ShippedSupportedTypes()
    ensures SupportedMediaTypesString(SupportedMediaVersions) == MediaTypeVersion("1")
    ensures SupportedMediaTypesAsWritten(SupportedMediaVersions) == SupportedMediaTypesString(SupportedMediaVersions)
  {
    VersionsOfShippedList();
  }

  /** With two versions the string-length bound also puts ", " after the last
      entry, because "1,2" has length 3 while there are only 2 versions. */
  lemma TwoVersionSeparator()
    ensures SupportedMediaTypesAsWritten("1,2") == MediaTypeVersion("1") + ", " + MediaTypeVersion("2") + ", "
    ensures SupportedMediaTypesString("1,2") == MediaTypeVersion("1") + ", " + MediaTypeVersion("2")
  {
    VersionsOfTwo();
  }

  /** The bound counts bytes: a single non-ASCII version such as "é" (one
      character, two bytes) is also followed by ", ". */
  lemma NonAsciiSeparator()
    ensures SupportedMediaTypesAsWritten("\U{e9}") == MediaTypeVersion("\U{e9}") + ", "
    ensures SupportedMediaTypesString("\U{e9}") == MediaTypeVersion("\U{e9}")
  {
    Strings.SplitJoin(["\U{e9}"], ',');
    assert Versions("\U{e9}") == ["\U{e9}"];
    assert |Strings.Utf8("\U{e9}")| == 2;
  }

  lemma VersionsOfTwo()
    ensures Versions("1,2") == ["1", "2"]
  {
    assert Strings.Join(["1", "2"], ',') == "1,2";
    Strings.SplitJoin(["1", "2"], ',');
  }
}
