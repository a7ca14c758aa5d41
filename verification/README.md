# Infoblox webhook for external-dns: a Dafny model

This project models the core of the external-dns Infoblox webhook in two parts.

- **The webhook's media-type check** (`MediaType`). The webhook serves one versioned media type,
  `application/external.dns.webhook+json;version=<v>`. A request header is accepted only when it
  equals, character for character, the media type of one of the supported versions (shipped: `"1"`).
  A rejected header gets an error message that quotes it and lists the supported media types.
  `CheckAndGetWith` builds that list as the code is written. `CheckAndGetCorrected` builds it with the
  separator bound the code evidently means (see "## Findings"). For the shipped list the two are identical.
- **The Infoblox provider, as its test double pins it down.** The provider file is not part of this
  model, so the model follows the behaviour its tests fix:
  - **Zone resolution** (`ZoneResolver`, `Selection`, `Domains`): a record name belongs to the
    longest listed zone it lies in. An IPv4 address belongs to the most specific CIDR zone that
    contains it. The zone list is first cut down by the domain filter, which compares names
    without case and without a trailing dot.
  - **Object references** (`Reference`, `Base64`, `Ipv4`): the double's `CreateObject` hands back a
    reference of the form `record:<type>/<base64 of name>:<discriminator>/default`. The
    discriminator is the record name, or the `in-addr.arpa` name of the address for PTR.
    `DeleteObject` takes a reference apart with the pattern `([^/]+)/[^:]+:([^/]+)/default`.
  - **Reading** (`Reader`, `Codec`): one zone-list query, then four record queries (A, HOST, CNAME,
    TXT) per zone that passes the filter. Each query carries `view` exactly when a view is
    configured. A objects of one name fold into one record holding all their addresses. A HOST
    object becomes one single-target A record per address, the shape in which the double logs the
    HOST objects it creates.
  - **Applying a change batch** (`Applier`):
    - Each change is routed to its zone. A change without a zone is skipped.
    - Under `createPTR`, an A change is mirrored as PTR into the reverse zone of its first target.
    - All deletions are issued before all creations, one call per target.
    - No update call is ever made. A dry run issues nothing.
  - **AdjustEndpoints**: under `createPTR`, every A record gets the provider-specific flag
    `infoblox-ptr-record-exists` set to `"true"`.

The server side is a parameter throughout:

- `fetch(k, z)` gives the objects a read query of type `k` in zone `z` returns.
- `lookup(k, n, t)` gives the references found for a deletion of type `k`, name `n` and target `t`.
- `Applier.Run` replays a sequence of client calls and records three logs:
  - the endpoints the double logs as created,
  - the request each `DeleteObject` call makes: the lookup it asks for, or its panic, or that it ignores the reference. This is one entry per call, not the double's log of deleted endpoints (see "## Left out").
  - the endpoints the double logs as updated.

## Model

| member | source | states |
|---|---|---|
| MediaType.MediaTypeVersion | pkg/webhook/mediatype.go:36-38 | the media type of a version is the fixed prefix ending in `version=` followed by the version, so the version can be read back from it |
| MediaType.MediaTypeVersionInjective | pkg/webhook/mediatype.go:36-38 | two versions with the same media type are the same version |
| MediaType.IsIsExactEquality | pkg/webhook/mediatype.go:40-42 | a header matches a media type exactly when the two strings are equal; a trailing space, a space after `;` or different letter case is rejected |
| MediaType.Versions | pkg/webhook/mediatype.go:45 | splitting the supported-versions string on ',' gives at least one version, and joining them again gives the string back |
| Strings.Split | pkg/webhook/mediatype.go:45 | strings.Split yields at least one part, no part contains the separator, and joining the parts with it restores the input |
| Strings.SplitJoin | pkg/webhook/mediatype.go:45 | splitting a join of separator-free parts gives back exactly those parts |
| MediaType.FirstMatch | pkg/webhook/mediatype.go:45-49 | a version is found iff some supported version's media type equals the header, and the one found is such a version |
| MediaType.CheckAndGetWith | pkg/webhook/mediatype.go:44-60 | as written, over an arbitrary supported-versions string: success iff the header is the media type of a supported version, returning that version; otherwise the error quoting the header and the supported media types listed with the separator bound of Go's `len`, the UTF-8 byte length of the string |
| MediaType.CheckAndGetCorrected | pkg/webhook/mediatype.go:44-60 | the same check with the evidently intended message: the supported media types separated by ", " with nothing after the last |
| MediaType.CheckAndGetVersionsAgree | pkg/webhook/mediatype.go:44-60 | the as-written and corrected checks accept the same headers with the same version, and with the shipped "1" they are identical |
| MediaType.TwoVersionMessage | pkg/webhook/mediatype.go:51-59 | with "1,2" a rejected header's message as written ends its list in ", "; the corrected message does not |
| MediaType.CheckAndGetMediaTypeHeaderValue | pkg/webhook/mediatype.go:44-60 | with the shipped versions exactly the version-1 media type is accepted, yielding "1"; any other header gets the error quoting it and listing exactly the version-1 media type, as the code as written does |
| MediaType.VersionsOfShippedList | pkg/webhook/mediatype.go:29 | the shipped supported-versions string splits into the single version "1" |
| MediaType.MessageNamesValue | pkg/webhook/mediatype.go:59 | the error message starts with the fixed text followed by the rejected header in quotes |
| MediaType.MediaTypeRoundTrip | pkg/webhook/mediatype.go:44-49 | the media type of every supported version passes the check and yields that very version |
| MediaType.SupportedTypesFromListed | pkg/webhook/mediatype.go:52-58 | with the bound set to the number of versions minus one, the loop builds the media types of the remaining versions separated by ", " |
| MediaType.SupportedMediaTypesListed | pkg/webhook/mediatype.go:51-58 | the corrected list names every supported media type once, in order, separated by ", " with nothing after the last |
| MediaType.ShippedSupportedTypes | pkg/webhook/mediatype.go:51-58 | with the shipped "1", the list as written and the corrected list agree: exactly the version-1 media type |
| MediaType.TwoVersionSeparator | pkg/webhook/mediatype.go:54 | with "1,2" the string-length bound leaves a trailing ", " after the last media type; the corrected bound does not |
| MediaType.NonAsciiSeparator | pkg/webhook/mediatype.go:54 | the bound counts UTF-8 bytes: the single version "é" (two bytes) is also followed by ", ", and the corrected list is just its media type |
| Strings.Utf8 | internal/infoblox/infoblox_test.go:129 | the UTF-8 bytes of a string, at least one per character and exactly one per character for ASCII text |
| Base64.Encode | internal/infoblox/infoblox_test.go:129 | standard base64 of a byte string is empty exactly when the input is |
| Base64.DecodeEncode | internal/infoblox/infoblox_test.go:129 | decoding the standard padded base64 encoding gives back the bytes |
| Base64.EncodeString | internal/infoblox/infoblox_test.go:129 | the base64 of a name's UTF-8 bytes contains no ':' and is empty only for the empty name |
| Ipv4.ParseOctet | internal/infoblox/infoblox_test.go:176 | an accepted octet is a non-empty run of decimal digits without a leading zero, and its value is below 256 |
| Ipv4.ParseFormat | internal/infoblox/infoblox_test.go:176 | parsing the dotted-decimal spelling of an address gives that address |
| Ipv4.FormatParse | internal/infoblox/infoblox_test.go:176 | every accepted IPv4 literal is the canonical spelling of the address it denotes |
| Ipv4.NotALiteral | internal/infoblox/infoblox_test.go:923 | a string holding a character other than a digit or '.' is not an IPv4 address |
| Ipv4.ParseFormatCidr | internal/infoblox/infoblox_test.go:913-914 | an address spelled out, then '/', then a prefix length up to 32, parses as that network |
| Ipv4.ContainsByOctets | internal/infoblox/infoblox_test.go:923-926 | a /8, /16 or /24 network contains an address iff their leading one, two or three octets agree |
| Ipv4.ReverseAddr | internal/infoblox/infoblox_test.go:176-179 | dns.ReverseAddr succeeds iff the address parses, giving the octets reversed followed by `.in-addr.arpa.` |
| Ipv4.ReverseAddrRecoversAddress | internal/infoblox/infoblox_test.go:176-180 | a reverse name is non-empty, has no '/', ends in `.in-addr.arpa.`, and what precedes that suffix parses as the reversed address |
| Ipv4.ReverseAddrInjective | internal/infoblox/infoblox_test.go:176-180 | two address literals with the same reverse name are the same literal |
| Objects.ObjectTypeName | internal/infoblox/infoblox_test.go:336-396 | every object type name is non-empty and contains no '/' |
| Objects.ObjectTypeNameInjective | internal/infoblox/infoblox_test.go:336-396 | different object types have different names |
| Objects.WithRef | internal/infoblox/infoblox_test.go:130 | setting a reference changes only the reference: type, owner name and zone are kept |
| Codec.ObjectFor | internal/infoblox/infoblox_test.go:118-187 | the object storing one target has the record's object type, name and zone and no reference yet |
| Codec.EndpointsOf | internal/infoblox/infoblox_test.go:118-175 | an object stands for single-target records under its owner name with no flags, PTR exactly for a PTR object: one A record per address of a HOST object, one record of its own type for any other object, as CreateObject logs them |
| Codec.HostReadsAsAddresses | internal/infoblox/infoblox_test.go:144-154 | a HOST object stands for the same records as the A objects of its addresses, address by address |
| Codec.ReadBackWritten | internal/infoblox/infoblox_test.go:118-187 | reading back the object written for one target gives that one-target record, whatever its zone and reference |
| Codec.WriteBackRead | internal/infoblox/infoblox_test.go:574-608 | writing back a single-value object that was read stores the same object without its reference |
| Reference.RefFor | internal/infoblox/infoblox_test.go:129 | a reference begins with its object type name and '/' |
| Reference.CreateRef | internal/infoblox/infoblox_test.go:118-187 | CreateObject fails exactly for a PTR object whose address is not IPv4, with the "unable to create reverse addr" error; otherwise the discriminator is the name, or the reverse name for PTR |
| Reference.CreateObjectAsWritten | internal/infoblox/infoblox_test.go:118-187 | the double's CreateObject as written: it returns the reference and logs the endpoints, and on success it stores one object of the same type |
| Reference.StoredRefLost | internal/infoblox/infoblox_test.go:164-175 | as written, a stored TXT or PTR object keeps an empty reference although CreateObject returned a non-empty one |
| Reference.CreateObject | internal/infoblox/infoblox_test.go:118-187 | corrected CreateObject: on success it stores the object carrying the reference it returns, and nothing on failure |
| Reference.CreateObjectVersionsAgree | internal/infoblox/infoblox_test.go:118-187 | both versions return and log the same; for A, CNAME and HOST they agree entirely |
| Reference.Fixture | internal/infoblox/infoblox_test.go:465-510 | a fixture exists exactly for the five record type names; it has the given name and zone, and its reference is `record:<lower-cased type>/<base64 name>:<name>/default` |
| Reference.FixtureRefMatchesCreateRef | internal/infoblox/infoblox_test.go:466 | a fixture's reference uses the name as discriminator, so it is the reference CreateObject returns for every type except PTR |
| Reference.MatchAt | internal/infoblox/infoblox_test.go:332-333 | a match found at a position is a prefix of the rest of the string, with a non-empty type without '/', a middle without ':' and a name without '/' |
| Reference.FindMatchFrom | internal/infoblox/infoblox_test.go:332-333 | FindStringSubmatch picks the leftmost start where the pattern matches; none means no start matches |
| Reference.MatchAtComplete | internal/infoblox/infoblox_test.go:332-333 | a reference built from well-formed pieces matches at its start with exactly those pieces |
| Reference.KindOfName | internal/infoblox/infoblox_test.go:335-396 | a captured type is recognised exactly when it is the name of an object type |
| Reference.DeleteObject | internal/infoblox/infoblox_test.go:331-413 | DeleteObject panics at the submatch index iff the pattern matches nowhere (the later PTR panic inside GetObject is left out); a lookup uses a non-empty name without '/' from some match whose type prefix names the kind; `Reference.DeleteObjectDispatch` ties the outcome to the leftmost match |
| Reference.DeleteObjectDispatch | internal/infoblox/infoblox_test.go:333-396 | at the leftmost matching position, DeleteObject looks up iff group 1 is a known type name, and then by that type and the group-2 name; it ignores the reference iff group 1 is not a known type |
| Reference.LeftmostIsFound | internal/infoblox/infoblox_test.go:333 | the match FindStringSubmatch reports is at the first position where the pattern matches |
| Reference.DeleteRecoversRef | internal/infoblox/infoblox_test.go:331-413 | DeleteObject on a reference built from a kind, a name and a discriminator looks up that kind and discriminator |
| Reference.CreateDeleteRoundTrip | internal/infoblox/infoblox_test.go:118-413 | deleting by the reference CreateObject returned looks up the created object's type and name, or for PTR its reverse name |
| Selection.SelectBest | internal/infoblox/infoblox_test.go:898-906 | nothing is chosen iff nothing qualifies; otherwise the choice qualifies, scores at least as high as every other candidate and beats every earlier one |
| Selection.BestUnique | internal/infoblox/infoblox_test.go:898-906 | the choice is unique: the first candidate with the top score |
| Domains.FilteredZones | internal/infoblox/infoblox_test.go:894 | a zone is kept iff it is listed and matches the domain filter |
| Domains.FilteredZonesOne | internal/infoblox/infoblox_test.go:894 | a single zone is kept iff it matches the filter |
| Domains.FilteredZonesAppend | internal/infoblox/infoblox_test.go:894 | filtering a concatenation concatenates the filtered parts, so list order and repetitions are kept |
| Domains.EmptyEntriesKeepAll | internal/infoblox/infoblox_test.go:826 | a filter whose entries are all empty keeps every zone in order |
| Domains.NormalEntry | internal/infoblox/infoblox_test.go:591 | a normalised filter entry holds no upper-case letter, and keeps its trimmed length when the trimmed entry has no trailing dot |
| Domains.NormalDomain | internal/infoblox/infoblox_test.go:591 | a normalised domain holds no upper-case letter, and keeps its length when it has no trailing dot |
| Domains.MatchByEntry | internal/infoblox/infoblox_test.go:591 | a filter keeps a domain that one of its entries accepts once both are normalised |
| Domains.MatchIgnoresCase | internal/infoblox/infoblox_test.go:591 | the entry "example.com" keeps "Example.COM" |
| Domains.MatchTrimsEntry | internal/infoblox/infoblox_test.go:591 | the entry " Example.com. " keeps "lvl1-1.example.com." |
| Strings.TrimSpace | internal/infoblox/infoblox_test.go:591 | the result is the input with only white space removed before and after it: a contiguous slice of the input, everything cut away is white space, and the result neither starts nor ends with white space |
| Strings.TrimSpaceKeeps | internal/infoblox/infoblox_test.go:591 | text without white space at either end is left unchanged |
| Strings.TrimSpaceStrips | internal/infoblox/infoblox_test.go:591 | one white-space character at each end of such text is removed |
| Domains.EntryAcceptsExample | internal/infoblox/infoblox_test.go:894-906 | the entry "example.com" accepts the apex and its subdomains but not "other.com" or "nomatch-example.com" |
| ZoneResolver.SameLengthSameZone | internal/infoblox/infoblox_test.go:898-906 | two zones of equal length that both contain a name are the same zone |
| ZoneResolver.FindZone | internal/infoblox/infoblox_test.go:898-906 | no zone iff the name lies in none (it equals the zone or ends with "." and the zone); otherwise a listed zone containing the name, at least as long as every other such zone |
| ZoneResolver.FindZoneOrderIndependent | internal/infoblox/infoblox_test.go:898-906 | the zone found depends only on which zones are listed, not on their order |
| ZoneResolver.FindZoneIgnoresShorter | internal/infoblox/infoblox_test.go:898-906 | listing a further zone no longer than the one found does not change the result |
| ZoneResolver.VectorApex | internal/infoblox/infoblox_test.go:898 | "example.com" resolves to itself |
| ZoneResolver.VectorNoMatch | internal/infoblox/infoblox_test.go:899 | "nomatch-example.com" has no zone |
| ZoneResolver.VectorBelowApex | internal/infoblox/infoblox_test.go:900-902 | "nginx.example.com" and "lvl1-2.example.com" resolve to "example.com" |
| ZoneResolver.VectorSubzone | internal/infoblox/infoblox_test.go:901 | "lvl1-1.example.com" resolves to itself |
| ZoneResolver.VectorDeepest | internal/infoblox/infoblox_test.go:903 | "lvl2-1.lvl1-1.example.com" resolves to itself |
| ZoneResolver.VectorBelowSubzone | internal/infoblox/infoblox_test.go:904 | "lvl2-2.lvl1-1.example.com" resolves to "lvl1-1.example.com" |
| ZoneResolver.VectorSkipsSibling | internal/infoblox/infoblox_test.go:905 | "lvl2-2.lvl1-2.example.com" resolves to "example.com" |
| ZoneResolver.VectorNetworkName | internal/infoblox/infoblox_test.go:906 | the network zone "1.2.3.0/24" resolves to itself by name |
| ZoneResolver.FindReverseZone | internal/infoblox/infoblox_test.go:923-926 | no zone for a non-address, and none iff no listed CIDR zone contains the address; otherwise a containing listed zone with a prefix at least as long as every other |
| ZoneResolver.InNet123 | internal/infoblox/infoblox_test.go:925 | "1.2.3.0/24" contains exactly the addresses starting 1.2.3 |
| ZoneResolver.InNet10 | internal/infoblox/infoblox_test.go:926 | "10.0.0.0/8" contains exactly the addresses starting 10 |
| ZoneResolver.ReverseVectorNotAnAddress | internal/infoblox/infoblox_test.go:923 | "nomatch-example.com" has no reverse zone |
| ZoneResolver.ReverseVectorOutside | internal/infoblox/infoblox_test.go:924 | "192.168.0.1" has no reverse zone |
| ZoneResolver.ReverseVectorInner | internal/infoblox/infoblox_test.go:925 | "1.2.3.4" resolves to "1.2.3.0/24" |
| ZoneResolver.ReverseVectorWide | internal/infoblox/infoblox_test.go:926 | "10.28.29.30" resolves to "10.0.0.0/8" |
| Reader.ViewParams | internal/infoblox/infoblox_test.go:611-621 | the view parameter is present iff a view is configured, holds the view, and never a zone |
| Reader.ZoneQuery | internal/infoblox/infoblox_test.go:611-613 | the zone-list query is `zone_auth` without a zone parameter |
| Reader.RecordQuery | internal/infoblox/infoblox_test.go:647-674 | a record query names its record type and the zone, and carries the view exactly when one is configured |
| Reader.RecordQueries | internal/infoblox/infoblox_test.go:614-621 | four queries per zone, block i being the A, HOST, CNAME and TXT queries of zone i |
| Reader.ReadQueries | internal/infoblox/infoblox_test.go:611-622 | a read issues the zone-list query first, then the four record queries of each zone that passes the filter, in order, and nothing else |
| Reader.ReadQueriesParameters | internal/infoblox/infoblox_test.go:647-674 | every query carries the view iff one is set; the zone-list query has no zone; every record query names a listed zone that passes the filter |
| Reader.AddA | internal/infoblox/infoblox_test.go:581-582 | adding one A object keeps the records well formed and adds exactly that name–address pair to what they hold |
| Reader.FoldInto | internal/infoblox/infoblox_test.go:574-608 | folding objects into well-formed records keeps them well formed and adds exactly the name–address pairs of the A objects read |
| Reader.FoldA | internal/infoblox/infoblox_test.go:581-606 | the folded A records have one record per name, no repeated address, and hold exactly the name–address pairs read |
| Reader.FoldTwoAddresses | internal/infoblox/infoblox_test.go:581-604 | two A objects with one name and different addresses read as one record with both addresses in read order |
| Reader.UnfoldTargets | internal/infoblox/infoblox_test.go:118-130 | the objects storing a record's targets: one A object per target, in order |
| Reader.FoldUnfold | internal/infoblox/infoblox_test.go:574-608 | folding the stored objects of well-formed A records, after earlier records, gives back exactly those records |
| Reader.ReadUnfold | internal/infoblox/infoblox_test.go:574-608 | round trip: reading back the objects that store well-formed A records gives those records |
| Reader.Singles | internal/infoblox/infoblox_test.go:587-608 | a record is among those of one object type iff it is one of the records of an object of that type; every such record has one target and no flags, and is PTR iff the type is PTR |
| Reader.ZoneRecords | internal/infoblox/infoblox_test.go:596-608 | a zone's records carry no provider-specific flags and are never PTR |
| Reader.ZoneRecordsComplete | internal/infoblox/infoblox_test.go:574-608 | every address read under an A name, every address of a HOST object as its own A record, and every CNAME and TXT object appear among the zone's records |
| Reader.ZoneRecordsSound | internal/infoblox/infoblox_test.go:574-608 | every A record comes from the A answer or is one address of one HOST object; every CNAME or TXT record comes from an object of that type |
| Reader.RecordsIn | internal/infoblox/infoblox_test.go:567-622 | the records of a list of zones are exactly the union of each zone's records |
| Reader.Records | internal/infoblox/infoblox_test.go:567-622 | Records() returns exactly the records of the listed zones that pass the domain filter |
| Applier.AsPtr | internal/infoblox/infoblox_test.go:768-791 | the PTR mirror keeps the change's name and targets |
| Applier.MapChange | internal/infoblox/infoblox_test.go:810-880 | a change without a zone is dropped; otherwise it is routed to its zone, and also, as PTR, to the reverse zone of its first target iff createPTR is on, it is an A change and that zone exists; every route names a listed zone |
| Applier.MapChanges | internal/infoblox/infoblox_test.go:810-880 | the routes of a list of changes are exactly the routes of its members |
| Applier.Plan | internal/infoblox/infoblox_test.go:848-876 | Delete and UpdateOld changes feed the deletions, Create and UpdateNew changes the creations, and nothing else does |
| Applier.CreatesOfTargets | internal/infoblox/infoblox_test.go:737-750 | one creation call per target, in target order, each storing that one target under the change's type and name in its zone |
| Applier.Creates | internal/infoblox/infoblox_test.go:737-750 | creation calls are exactly the per-target calls of the routed creations |
| Applier.DeletesForTarget | internal/infoblox/infoblox_test.go:752-757 | one deletion call per reference the lookup finds for the target, in lookup order |
| Applier.DeletesOfTargets | internal/infoblox/infoblox_test.go:752-757 | a deletion call is issued for a change's targets iff it carries one of the targets and a reference the lookup finds for it |
| Applier.DeletesOfTargetsOne | internal/infoblox/infoblox_test.go:752-757 | for one target the deletion calls are DeletesForTarget's: one per looked-up reference, in lookup order |
| Applier.DeletesOfTargetsAppend | internal/infoblox/infoblox_test.go:752-757 | the calls for a concatenation of target lists are the calls of each list in turn, so each target contributes exactly one call per reference |
| Applier.Deletes | internal/infoblox/infoblox_test.go:752-757 | deletion calls are exactly the looked-up references of the targets of the routed deletions |
| Applier.DeletesFirst | internal/infoblox/infoblox_test.go:737-759 | in deletions followed by creations there is no update, and no deletion comes after a creation |
| Applier.ApplyChanges | internal/infoblox/infoblox_test.go:796-808 | a dry run issues no call; no update call is ever issued; every deletion precedes every creation |
| Applier.CreatesCovered | internal/infoblox/infoblox_test.go:737-750 | every target of a Create or UpdateNew change that has a zone is created in that zone |
| Applier.DeletesCovered | internal/infoblox/infoblox_test.go:752-757 | every looked-up reference of every target of a Delete or UpdateOld change that has a zone is deleted in that zone |
| Applier.CreatesSound | internal/infoblox/infoblox_test.go:737-750 | every creation call stores one target of a route of some Create or UpdateNew change |
| Applier.DeletesSound | internal/infoblox/infoblox_test.go:752-757 | every deletion call removes a looked-up reference for one target of a route of some Delete or UpdateOld change |
| Applier.RouteOfChange | internal/infoblox/infoblox_test.go:810-880 | a route carries the change's name and targets, with its own type or, under createPTR for an A change, PTR |
| Applier.NoPtrCreatedWithoutCreatePtr | internal/infoblox/infoblox_test.go:737-750 | without createPTR and without PTR changes no PTR object is created |
| Applier.NoPtrDeletedWithoutCreatePtr | internal/infoblox/infoblox_test.go:752-757 | without createPTR and without PTR changes no PTR object is deleted |
| Applier.Run | internal/infoblox/infoblox_test.go:39-47 | the deletion log holds at most one DeleteObject request per call |
| Applier.RunConcat | internal/infoblox/infoblox_test.go:39-47 | serving two call sequences in turn appends their logs |
| Applier.TargetLog | internal/infoblox/infoblox_test.go:737-750 | one single-target endpoint per target, in order |
| Applier.RunCreates | internal/infoblox/infoblox_test.go:737-750 | the creation calls log one single-target endpoint per target of each routed creation, and no deletion or update |
| Applier.ApplyLog | internal/infoblox/infoblox_test.go:737-808 | after ApplyChanges the update log is empty; a dry run logs nothing; otherwise the created log lists each routed creation's targets in order |
| Applier.ApplyDeletedLog | internal/infoblox/infoblox_test.go:752-757 | each recorded DeleteObject request comes from a deletion call of the run |
| Applier.RunDeletes | internal/infoblox/infoblox_test.go:331-413 | a run of deletion calls records exactly one DeleteObject request per call, in call order |
| Applier.ApplyDeletedLogExact | internal/infoblox/infoblox_test.go:752-757 | outside a dry run, the deletion log of ApplyChanges is exactly the request of each planned deletion call, once each and in call order |
| Applier.DeleteCallLooksUp | internal/infoblox/infoblox_test.go:331-413 | with fixture references, one deletion call looks up the type and name of the change it came from (PTR for a mirror) |
| Applier.DeletesLookUpChanges | internal/infoblox/infoblox_test.go:752-757 | with fixture references, every DeleteObject outcome of ApplyChanges looks up the type and name of a Delete or UpdateOld change, or PTR for it under createPTR |
| Applier.AdjustEndpoints | internal/infoblox/infoblox_test.go:677-704 | names, types and targets are kept; under createPTR every A record has the flag set to "true" and keeps its other flags; every other record is unchanged |
| Applier.AdjustIdempotent | internal/infoblox/infoblox_test.go:677-704 | adjusting twice is the same as adjusting once |
| Applier.AdjustWithoutCreatePtr | internal/infoblox/infoblox_test.go:677-704 | without createPTR the records come back unchanged |
| Applier.AdjustAfterRead | internal/infoblox/infoblox_test.go:696-703 | after adjusting flag-free records under createPTR, each A record carries exactly the flag and every other record carries none |
| Applier.AdjustedRecords | internal/infoblox/infoblox_test.go:691-703 | Records() then AdjustEndpoints under createPTR: A records carry exactly the flag, CNAME and TXT records carry no flags |

## Left out

- The provider file (the real `findZone`, `findReverseZone`, `mapChanges`, `createRecords`, `deleteRecords`, `recordSet` and `AdjustEndpoints`) is not part of this model. Their behaviour is modelled as the tests fix it.
  - Zone names are compared exactly. Upstream compares with case folding.
  - Reverse zones are ranked by CIDR prefix length.
  - The flag key `infoblox-ptr-record-exists` is the upstream constant's value.
- The double's `GetObject` filter and its request recording are left out. Reads are modelled by the `fetch` parameter. The lookup that precedes each deletion is modelled by the `lookup` parameter.
- The extended request builder is not part of this model: regex filters, `_max_results` and HTTP query building.
- The double's `UpdateObject` is not modelled. ApplyChanges never calls it, so only the absence of update calls is stated.
- Reading PTR records under createPTR is not modelled. The tests that pin it are skipped.
- The ApplyChanges tests for createPTR are skipped too. The PTR mirror (`Applier.MapChange`) is therefore modelled from the upstream design, not from a test.
- IPv6: addresses, reverse names and networks.
- The zone-ID filter. The tests always pass `[""]`, which matches every zone.
- The domain filter is external-dns code and is not part of this model; it is modelled with the rules of its `NewDomainFilter` and `Match`: each entry is trimmed of white space, loses one trailing dot and is lower-cased; the domain loses one trailing dot and is lower-cased; an entry matches itself, any name ending in "." followed by it, or, when it starts with '.', any name ending in it; no entries match everything. Regex filters and exclusions are not modelled.
- Domains.Match: an entry that is empty after normalisation accepts every domain, as older external-dns releases do. Newer releases drop such entries instead, which differs only when empty and non-empty entries are mixed. The tests only use `[""]` alone, which both readings keep whole.
- Domains.NormalEntry: case folding and trimming cover ASCII letters and Latin-1 white space only. Go's `strings.ToLower` and `strings.TrimSpace` also handle the rest of Unicode.
- Codec.EndpointsOf: reading a HOST object with several addresses as one A record per address is a design choice that no test fixes, because every HOST object the tests read has one address. It follows how the double logs created and updated HOST objects, so reads and writes agree. The double's `UpdateObject` also swaps target and type when it logs, which is not modelled, because no update call is ever made.
- Reader.ZoneRecords: records are read without provider-specific flags even under createPTR. The only createPTR read the tests check (internal/infoblox/infoblox_test.go:689-703) is observed after `AdjustEndpoints`, which sets the flag either way, so flags set at read time are not fixed by any test.
- Go map iteration order. The change maps are keyed by zone, so real runs visit zones in an unspecified order. The model keeps input order. The ordering it proves (deletions before creations) holds for every order.
- The view carried by created objects, and the re-quoting of TXT targets that are already quoted. The zone a created object records is the zone it was routed to.
- Go panics are preconditions, not error results:
  - `Applier.MapChange` requires an A change to have a target when createPTR is on, because the PTR mirror reads `Targets[0]` unguarded. The read happens only after a zone is found, so the requirement is stricter than needed: a target-less A change with no zone, which is skipped without the read, is also excluded.
  - `Reference.DeleteObject` returns `Panics` when the pattern does not match, because the source indexes the empty match.
  - Reference.DeleteObject: a `record:ptr` deletion is modelled as a lookup by name, but the double's DeleteObject sets only the name on an empty PTR object (internal/infoblox/infoblox_test.go:396-399), and GetObject dereferences that PtrdName (line 311) whenever it meets a stored PTR object whose Ref equals the deletion reference (that reference is never empty, so stored PTR objects with an empty Ref are skipped at lines 307-309). That pointer is nil unless the library's constructor sets it, so such a deletion would panic. The library is not part of this model, so this panic is not modelled. The PTR outcomes of `Applier.DeleteCallLooksUp` and `Applier.DeletesLookUpChanges` describe the lookup DeleteObject asks for, not a completed deletion.
- Logging, the HTTP transport, authentication and process wiring.
- Applier.Run: the deletion log records the lookup each `DeleteObject` call asks for, one entry per call. The double's `deletedEndpoints` instead gets one endpoint per stored object whose Ref equals the reference (internal/infoblox/infoblox_test.go:338-349). That is none for a TXT or PTR object stored with an empty Ref, and two for the two "multiple.example.com" A fixtures, which share one reference. The two logs have the same length when every reference is held by exactly one stored object, as in the ApplyChanges fixtures (internal/infoblox/infoblox_test.go:813-819). Which stored objects hold a reference is the `GetObject` filter's business, and that filter is left out.
- Applier.Run: only the bound on the deletion log is stated on Run itself. Its content is stated by `Applier.RunCreates` and `Applier.RunDeletes` for runs of one kind of call, and for ApplyChanges by `Applier.ApplyLog` and `Applier.ApplyDeletedLogExact`.

## Findings

| source | as written | input that shows it | evidently intended | confidence | as-written member | corrected member |
|---|---|---|---|---|---|---|
| internal/infoblox/infoblox_test.go:164-175 | the TXT and PTR cases of the double's `CreateObject` assign `Ref` before the reference is computed, so the stored object keeps an empty reference while the caller gets a non-empty one | `TxtRecord("a.example.com", "t", "example.com", "")`, or a PTR object with address "1.2.3.4" | the stored object carries the reference `CreateObject` returns, as for A, CNAME and HOST | not executed | Reference.StoredRefLost | Reference.CreateObject |
| pkg/webhook/mediatype.go:54 | the separator after entry i is added when `i < len(supportedMediaVersions)-1`, the UTF-8 byte length of the versions string rather than the number of versions | supported versions "1,2": the list ends in a stray ", " (with the shipped "1" both agree) | a separator between entries only, bound by the number of versions | not executed | MediaType.TwoVersionMessage | MediaType.CheckAndGetCorrected |
