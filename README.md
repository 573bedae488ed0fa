# Codex build manifests and location URIs, in Dafny

This project models two parts of the Codex Python client.

- **Build manifests (`VersionInfo.xml`).** A `<manifest>` element holds exactly one `<versioninfo>`. That element
  holds `<build>` elements in three historical layouts (1.0, 1.1 and 2.0). Each build can carry repositories,
  metadata items, file records and nested component builds.
  - A `VersionInfo` object owns the document tree and a list of `Build` handles, one per `<build>` child of
    `<versioninfo>`.
  - A `Build` names its element by a path in the owner's tree. It mirrors the element's attributes and child
    lists in its own fields.
  - The mutators change the tree and the mirrored field together.
- **Codex location URIs.** `scheme://server/path[?query|@query]` is split into parts. A handler is chosen from
  the URI prefix and the mode, and uploads are refused on a read-only location.

The XML document is modelled as a value tree (`Dom.Node`: element with tag, attribute map and ordered children,
or text).

- An in-place edit of an element is `UpdateAt(doc, path, newElement)`.
- Two Python references to the same DOM node become the same path into the owner's tree.

The modules are:

- `wrappers.dfy`: `Option` and `Result`.
- `text.dfy`: the Python string operations the code uses: `find`, slicing, `lstrip`/`rstrip`/`strip`,
  `startswith`/`endswith`, and the numeric test `float()` applies.
- `dom.dfy`: the tree, paths, children by tag, appending to the last group child, document-order counting and
  the pruning of `removeComponents`.
- `manifest.dfy`: the reading of builds and manifests as functions, the filters and the line rejoining.
- `versioninfo.dfy`: the `VersionInfo` and `Build` classes with their loops and mutators.
- `location.dfy`: `_parseURI`, the factory, the volume split and the upload guard.

Where the code and its documentation disagree, the model follows the code:

- `addBuild` does not add the new build to `buildlist`.
- A manifest created empty has no `manifestversion`, so `version()` fails on it.
- An `afp` URI is given to the FTP handler, so the AFP volume split is never reached through the factory.
  `SplitVolume` and `ServerPath` model the split that both SMB and AFP write.

## Model

| member | source | states |
|---|---|---|
| Manifest.JoinLines | codexPythonClient/versioninfo.py:36-50 | the loop's text equals `Joined(lines)`: every line stripped, a space added after a closing quote, all concatenated |
| Manifest.JoinedAppend | codexPythonClient/versioninfo.py:36-50 | joining two runs of lines is joining each and concatenating |
| Manifest.QuoteThenSpace | codexPythonClient/versioninfo.py:44-47 | a stripped line ending in `"` is followed by a space in the joined text, so attributes on consecutive lines never touch |
| Manifest.ParseManifest | codexPythonClient/versioninfo.py:55-74 | non-numeric version -> NotANumber; zero / several `<versioninfo>` -> NoVersionInfo / ManyVersionInfo. On success: exactly one versioninfo, found and kept at its path; only its children change; they keep length and tags, non-builds untouched; the builds are exactly its `<build>` children in order; every build record is consistent with its element. With a numeric version and one `<versioninfo>`, loading succeeds exactly when every original `<build>` child of it reads on its own, and the j-th record is the j-th original `<build>` child read by `ParseBuild` |
| Manifest.BuildPerChild | codexPythonClient/versioninfo.py:72-74 | a loaded manifest has one build per `<build>` child of `<versioninfo>` |
| Manifest.GroupConsistent | codexPythonClient/versioninfo.py:72-74 | every build read from a run of siblings is consistent with its element |
| Manifest.GroupReadsAll | codexPythonClient/versioninfo.py:72-74 | reading a run of siblings succeeds exactly when every `<build>` among them reads on its own |
| Manifest.GroupReadsEach | codexPythonClient/versioninfo.py:72-74 | the j-th record read from a run of siblings is `ParseBuild` of the j-th original `<build>` sibling |
| Manifest.ParseGroup | codexPythonClient/versioninfo.py:72-74 | reading siblings keeps their number and tags, leaves non-builds untouched, and the records' elements are exactly the `<build>` siblings |
| ManifestObjects.VersionInfo.Load | codexPythonClient/versioninfo.py:55-74 | fails exactly when `ParseManifest` fails, with its error. On success the new object holds the normalised tree, the version and one valid handle per build record; handles are in document order and each holds its record's fields |
| ManifestObjects.VersionInfo.ReadVersionInfo | codexPythonClient/versioninfo.py:70-74 | the pass over `<versioninfo>` succeeds exactly when `ParseManifest` does and yields what `Load` promises |
| ManifestObjects.VersionInfo.ReadChildren | codexPythonClient/versioninfo.py:72-74 | the loop fails exactly when reading the siblings fails, with that error; otherwise it returns the normalised siblings and the handles, each on the `<build>` at its index and holding its record |
| ManifestObjects.VersionInfo.ReadSibling | codexPythonClient/versioninfo.py:72-74 | one iteration extends the siblings read so far by exactly one, in step with `ParseGroup`, and adds a handle only for a `<build>` |
| ManifestObjects.VersionInfo.Adopt | codexPythonClient/versioninfo.py:70-74 | the normalised children go into the tree at `<versioninfo>` and the handles into `buildlist`; afterwards the object represents the loaded manifest |
| ManifestObjects.VersionInfo.Empty | codexPythonClient/versioninfo.py:20-28 | a new manifest is `<manifest version="2.0">` with one empty `<versioninfo>`, no builds and no manifest version |
| Manifest.DetectSchema | codexPythonClient/versioninfo.py:200-207 | 1.0 iff `version_major`; 1.1 iff not that and both `version` and `target`; 2.0 iff neither and `compilertarget`; otherwise UnknownSchema |
| Manifest.LegacyWins | codexPythonClient/versioninfo.py:200-201 | `version_major` decides 1.0 whatever other attributes are added |
| Manifest.LegacyVersionParts | codexPythonClient/versioninfo.py:217-220 | the combined legacy version splits back into major, minor and (unless it is "0") sub |
| Manifest.CollapseLegacy | codexPythonClient/versioninfo.py:212-232 | the three legacy attributes are gone; a combined version not starting with "." replaces `version`; otherwise `version` is kept; every other attribute is kept and none is added |
| Manifest.CollapseLegacyAsWritten | codexPythonClient/versioninfo.py:223-225 | as written, the collapse fails exactly when the combined version does not start with "." |
| Manifest.AsWrittenRejectsLegacy | codexPythonClient/versioninfo.py:223-225 | every 1.0 build whose major version is non-empty and does not start with "." breaks the code as written, while the intended collapse yields the combined version |
| Manifest.Settle | codexPythonClient/versioninfo.py:212-235 | after settling, the element's `version` is the build's version, `version_major` is gone, product and lang are unchanged; non-1.0 builds are untouched |
| Manifest.ReadVariant | codexPythonClient/versioninfo.py:237-253 | fails (BadDateTime) exactly for a 1.x build whose date and time are not a valid stamp; legacy variant iff 1.x; the build number is `version_build` below 2.0 and `build` at 2.0; the stamp is `FormatDateTime` of `date` and `time` below 2.0 and the `datetime` attribute at 2.0; date, time, target, phases, subproduct and the four 2.0 fields are the attributes |
| Manifest.FormatDateTime | codexPythonClient/versioninfo.py:242-243 | fails (BadDateTime) exactly when date and time are not a valid `%Y%m%d %H%M%S` stamp of a real day with a year from 1900 (the years `strftime` prints); otherwise the stamp is `Restamp` of the digits |
| Manifest.DateTimeDigits | codexPythonClient/versioninfo.py:242-243 | the reformatted stamp has 19 characters, separators `/ / : : :` at 4, 7, 10, 13, 16, and exactly the input's digits |
| Manifest.ParseBuild | codexPythonClient/versioninfo.py:189-314 | a read build keeps its element's tag and number of children, and its schema is the detected one; its fields and errors are stated by the lemmas below |
| Manifest.BuildErrors | codexPythonClient/versioninfo.py:200-298 | an unknown layout -> UnknownSchema; else an empty settled version -> NoVersion; else a 1.x date and time that are not a valid stamp -> BadDateTime; else reading succeeds exactly when the children read, failing with their error |
| Manifest.BuildReadsFields | codexPythonClient/versioninfo.py:210-258 | the record's version and its element's attributes are those `Settle` gives for the detected layout; product and lang are the input's attributes |
| Manifest.BuildReadsStamp | codexPythonClient/versioninfo.py:237-250 | the build number is the input's `version_build` below 2.0 and `build` at 2.0; the stamp is `FormatDateTime` of its `date` and `time` below 2.0 and its `datetime` at 2.0 |
| Manifest.BuildReadsNested | codexPythonClient/versioninfo.py:286-298 | the record's children and component lists are those `ParseNested` reads from the input's children |
| Manifest.NestedReadsAll | codexPythonClient/versioninfo.py:286-298 | reading a build's children succeeds exactly when every `<build>` in its `<components>` and `<directcomponents>` children reads on its own |
| Manifest.NestedReadsEach | codexPythonClient/versioninfo.py:286-298 | the j-th component (direct component) is `ParseBuild` of the j-th original `<build>` in the `<components>` (`<directcomponents>`) children, in document order |
| Manifest.BuildConsistent | codexPythonClient/versioninfo.py:189-314 | a read build has a non-empty version, `fullversion = version + " " + build`, product/version/lang/target/2.0 fields equal to the element's attributes, a build number that is the element's `version_build` (1.x) or `build` (2.0), a stamp that is `FormatDateTime` of the element's `date` and `time` (1.x) or its `datetime` (2.0), no `version_major`, and lists that mirror the children |
| Manifest.ParseNested | codexPythonClient/versioninfo.py:286-298 | the children of a build keep length and tags; the component lists are exactly the `<build>`s of every `<components>` / `<directcomponents>` child |
| Manifest.NatToStringRoundTrip | codexPythonClient/versioninfo.py:424-425 | the decimal text written for a file size reads back as the same number |
| Manifest.FilterExact | codexPythonClient/versioninfo.py:116-127 | `builds(p)` is exactly the builds of product p, in their original order |
| Manifest.FilterProducts | codexPythonClient/versioninfo.py:116-127 | `builds(None)` is every build; every build in `builds(p)` is in the list and has product p |
| ManifestObjects.VersionInfo.Builds | codexPythonClient/versioninfo.py:116-127 | the loop returns `FilterBy(buildlist, product)` |
| ManifestObjects.VersionInfo.SimpleVersionStrings | codexPythonClient/versioninfo.py:129-138 | one entry per selected build, entry i is `product + " " + fullversion` |
| ManifestObjects.VersionInfo.SimpleVersionDates | codexPythonClient/versioninfo.py:140-149 | one entry per selected build, entry i is its datetime |
| ManifestObjects.VersionInfo.Target | codexPythonClient/versioninfo.py:151-159 | no builds -> failure; otherwise a target iff the first build is 1.x, and then it is that handle's `target` field (the element's `target` attribute while the handle is valid) |
| ManifestObjects.VersionInfo.Version | codexPythonClient/versioninfo.py:109-114 | the version read at load time; failure on a manifest created empty |
| ManifestObjects.VersionInfo.RemoveComponents | codexPythonClient/versioninfo.py:161-181 | the loop ends with the tree pruned to `KeepFirst`: at most one `<components>` remains, exactly one if there was any. When every `<components>` lies inside `<versioninfo>`, only that element is pruned, it stays at `vpath` and the object stays valid |
| Dom.KeepFirstAlong | codexPythonClient/versioninfo.py:171-181 | when every element with the tag lies in the subtree at a path, pruning the tree is pruning that subtree in place: the path still leads to it and the rest of the tree is unchanged |
| Dom.KeepFirstCount | codexPythonClient/versioninfo.py:171-181 | after pruning, one `<components>` remains if there was any, none otherwise |
| Dom.KeepFirstPath | codexPythonClient/versioninfo.py:164-166 | the remaining `<components>` is the first in document order, at the same path |
| Dom.KeepFirstIdempotent | codexPythonClient/versioninfo.py:171-181 | pruning a pruned tree changes nothing, so a second call is a no-op |
| Dom.KeepFirstAfterRemoveNode | codexPythonClient/versioninfo.py:177-181 | removing the second `<components>` in document order does not change the pruned outcome (the loop invariant) |
| Dom.RemoveLowersCountNode | codexPythonClient/versioninfo.py:172-181 | removing it strictly lowers the count and leaves at least one (the loop terminates) |
| ManifestObjects.VersionInfo.AddBuild | codexPythonClient/versioninfo.py:78-98 | exactly one `<build>` with the ten attributes is appended to `<versioninfo>`, also when the version is empty; then NoVersion iff version is ""; otherwise a valid 2.0 handle on it with `fullversion = version + " " + buildnum`; `buildlist` untouched and every handle in it that was valid stays valid |
| ManifestObjects.NewBuildAttrs | codexPythonClient/versioninfo.py:83-94 | the new `<build>` is a childless element whose ten attributes are the given values, with a `compilertarget` and no `version_major` or `target` |
| ManifestObjects.ReadChildlessBuild | codexPythonClient/versioninfo.py:189-314 | a childless `<build>` with `compilertarget` and neither `version_major` nor `target` reads as a 2.0 record of exactly its attributes with empty lists; with an empty version it fails with NoVersion |
| ManifestObjects.Build.Read | codexPythonClient/versioninfo.py:189-314 | a handle created from a record consistent with its element (every read build is, by `BuildConsistent`) holds the record's fields and mirrors the element, build number and stamp included |
| ManifestObjects.Build.SetCompilerTarget | codexPythonClient/versioninfo.py:437-442 | the attribute and the field both get the new value; the handle stays valid |
| ManifestObjects.Build.SetLicenseModel | codexPythonClient/versioninfo.py:445-450 | the same for `licensemodel` |
| ManifestObjects.Build.SetFormat | codexPythonClient/versioninfo.py:453-458 | the same for `format` |
| ManifestObjects.Build.SetLang | codexPythonClient/versioninfo.py:461-466 | the same for `lang` |
| ManifestObjects.Build.SetPlatform | codexPythonClient/versioninfo.py:469-474 | the same for `platform` |
| ManifestObjects.Build.AddRepository | codexPythonClient/versioninfo.py:372-392 | a `<repository>` child is appended; the record appended has URI `scheme + "://" + authority + path + query`; the handle stays valid |
| ManifestObjects.ListsAfterRepository | codexPythonClient/versioninfo.py:372-392 | the appended child adds that record at the end and changes no other list |
| ManifestObjects.Build.AddMetadata | codexPythonClient/versioninfo.py:395-412 | an `<item>` goes into the last `<metadata>` child (made when missing); `metadata[key] = value`, other keys unchanged |
| ManifestObjects.ListsAfterMetadata | codexPythonClient/versioninfo.py:395-412 | the new item makes the key map to the value (last write wins) and changes no other list |
| ManifestObjects.Build.AddFile | codexPythonClient/versioninfo.py:415-434 | a `<file>` goes into the last `<fileinfo>` child (made when missing); `(name, md5)` is appended, duplicates allowed |
| ManifestObjects.ListsAfterFile | codexPythonClient/versioninfo.py:415-434 | the new file adds its entry at the end and changes no other list |
| ManifestObjects.Build.AddComponent | codexPythonClient/versioninfo.py:332-349 | missing source -> SourceNotFound; unloadable source -> its error; nothing changes on failure. Success iff the source exists and loads; then the selected builds are appended to `components` and their elements to the last `<components>` child (made when missing) |
| ManifestObjects.Build.AddDirectComponent | codexPythonClient/versioninfo.py:352-369 | the same for `directcomponents`, with success iff the source exists and loads |
| ManifestObjects.Build.AppendComponents | codexPythonClient/versioninfo.py:345-349 | the selected builds join `components` and the group child; the handle stays valid |
| ManifestObjects.Build.AppendDirectComponents | codexPythonClient/versioninfo.py:365-369 | the same for direct components |
| ManifestObjects.Build.AppendBuilds | codexPythonClient/versioninfo.py:338-349 | the loop leaves the child list as `AppendAllToGroup` of the selected elements |
| ManifestObjects.AppendAllBuilds | codexPythonClient/versioninfo.py:338-349 | the builds of the group grow by exactly the appended elements, in order; repositories, items, files and the other group are unchanged |
| ManifestObjects.ListsAfterComponents | codexPythonClient/versioninfo.py:345-349 | after appending, the components are the old ones followed by the selected builds; no other list changes |
| ManifestObjects.ListsAfterDirectComponents | codexPythonClient/versioninfo.py:365-369 | the same for direct components |
| ManifestObjects.SelectedBuilds | codexPythonClient/versioninfo.py:345 | the builds `builds(product)` selects from a loaded manifest are `<build>` elements consistent with their records |
| Location.ParseUri | codexPythonClient/codexlocation.py:77-112 | `_parseURI` as a function from the URI text to (scheme, server, path, query); the lemmas below state its properties |
| Location.SchemeBeforeColon | codexPythonClient/codexlocation.py:84-85 | with a colon, the scheme is the text before the first one and holds no colon |
| Location.SchemeWithoutColon | codexPythonClient/codexlocation.py:84-88 | with no colon, the scheme is the URI minus its last character, and the rest is the whole URI with leading slashes stripped |
| Location.ServerStopsAtSlash | codexPythonClient/codexlocation.py:88-96 | the server is the text before the first `/` after the stripped slashes and holds no `/` |
| Location.QuestionMarkFirst | codexPythonClient/codexlocation.py:102-106 | with a `?`, path and query are the text before and after the first `?`, even when an `@` is present |
| Location.AtSignSecond | codexPythonClient/codexlocation.py:107-109 | with no `?` but an `@`, path and query are split at the first `@` |
| Location.NoQueryMarker | codexPythonClient/codexlocation.py:110-112 | with neither marker, the query is empty and the path has no trailing `/` or `\` |
| Location.ParseComposed | codexPythonClient/codexlocation.py:77-112 | `scheme://server/path` with well-formed parts parses back to exactly `(scheme, server, path, "")` |
| Location.Dispatch | codexPythonClient/codexlocation.py:37-50 | `ftp` -> FTP; `smb` -> SMB when mode is "r" or "w", else BadProtocol; `afp` -> FTP; anything else -> BadProtocol |
| Location.SplitVolume | codexPythonClient/codexlocation.py:213 | fails exactly when the path has no `/`; otherwise volume + "/" + rest is the path and the volume has no `/` |
| Location.ServerPath | codexPythonClient/codexlocation.py:214-218 | the share path is two separators, the server, a separator and the volume, each server and volume character kept except that a slash or backslash becomes the platform's separator; no foreign separator remains |
| Location.ServerPathPlain | codexPythonClient/codexlocation.py:214-218 | with separator-free parts the share path is exactly sep + sep + server + sep + volume |
| Location.RemoteLocation.Upload | codexPythonClient/codexlocation.py:182-187 | ReadOnly exactly when "w" is not in the mode (the same guard at 295-296 and 404-405) |
| Location.Open | codexPythonClient/codexlocation.py:37-63 | opening succeeds iff the factory dispatches the URI and, for SMB, the path holds a volume; an unknown protocol is BadProtocol and an SMB path without a volume NoVolume; an opened location holds the parsed URI, the mode and the dispatched handler; the SMB share is computed from the server and the volume, and FTP has none |

## Left out

- XML text parsing and printing (`parseString`, `normalize`, `toprettyxml`). The model starts from the parsed
  element tree.
- Reading the manifest file and testing whether it exists. `Load` takes the root element, and `JoinLines` models
  the line rejoining on a list of lines.
- `addComponent` and `addDirectComponent` take `Option<Node>` for the source manifest. `None` stands for a path
  that does not exist.
- The source manifest of `addComponent` is read with `ParseManifest`, the function `Load` is proved to agree
  with, instead of building a second `VersionInfo` object.
- `Build._addComp` is not part of this model. It is never called and refers to names that do not exist.
- The module-level helpers `getVersionStrings`, `getVersionDate`, `getTarget` and `getFiles` are not part of this
  model. They only combine file reading with the queries above.
- `.encode('ascii')` on attribute values is not modelled. The model does not fail on non-ASCII text.
- `float()` of the manifest version is modelled as a test on the text (`IsFloatLiteral`). `Version` returns the
  text, not a floating-point number. `IsFloatLiteral` knows only ASCII whitespace and digits; `float()` of a
  unicode string also accepts Unicode whitespace and decimal digits, which the model rejects.
- Manifest.FormatDateTime: accepts only the zero-padded eight- and six-digit forms with a year from 1900.
  `strptime` also accepts some shorter forms. Python 2's `strftime` prints a year from 0001 to 0099 as a year
  from 1969 to 2068 (`0050` gives `2050`); the model rejects those years instead.
- `Build.__init__`'s loop over a build's children is modelled by the functions `ParseBuild` and `ParseNested`,
  not by a loop.
- Nested component builds have no handles. In the source, `components` and `directcomponents` hold `Build`
  objects whose setters and `add*` methods edit the nested `<build>` elements. In the model they hold
  `BuildInfo` records: a `Build` handle names only a `<build>` child of `<versioninfo>`. Editing a nested
  element through a handle, and the parent's lists sharing that edit by reference, are not captured.
- ManifestObjects.VersionInfo.RemoveComponents: the object is proved to stay valid only when every `<components>`
  lies inside `<versioninfo>`. When one lies before `<versioninfo>` or encloses it, pruning can move
  `<versioninfo>` away from `vpath`; Python keeps its node reference, but the model's `vpath` is then stale.
- Handles in `buildlist` are not re-proved valid after `RemoveComponents` or after another handle's mutation
  (they are after `AddBuild`).
  `UpdateAtElsewhere` states, at the value level, that an edit at one path leaves the others unchanged.
- `addFile`'s size is `Option<nat>`: the attribute is written for a positive number only. Python writes
  `str(size)` for any truthy value, so a negative number or a non-empty string also becomes the attribute.
- `minidom`'s detaching of a node from its old parent when it is appended elsewhere is not modelled. The source
  manifest of `addComponent` is discarded after the call.
- The FTP, SMB and AFP transports are not part of this model: connecting, mounting, listing, downloading, the
  copying part of `upload`, `chdir`, `copydir`, and the `afp.py` and `ftp.py` modules. `Sep` stands for
  `os.sep`, with the platform given as a parameter.

## Findings

| source | as written | input that shows it | evidently intended | confidence | as-written member | corrected member |
|---|---|---|---|---|---|---|
| codexPythonClient/versioninfo.py:224 | `self.version = self.version_old` reads an attribute that is never set, so AttributeError is raised | any 1.0 `<build>` with `version_major="1"` (combined version does not start with ".") | `self.version = version_old`, the local combined version | not executed | Manifest.AsWrittenRejectsLegacy | Manifest.CollapseLegacy |
