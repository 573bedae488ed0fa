/**
 * Location URIs handed out by the build server (`ftp://server/path`, `smb://server/volume/path`,
 * `afp://...`): splitting a URI into its parts, choosing the transport handler, the SMB/AFP
 * volume split, and the read-only guard on uploads. Connecting, listing and copying are the
 * transport collaborators' business and are not part of this module.
 */
module Location {
  import opened Wrappers
  import opened Text

  datatype Uri = Uri(scheme: string, server: string, path: string, query: string)

  datatype Protocol = Ftp | Smb

  datatype LocationError =
    | BadProtocol      // no handler for this URI prefix and mode
    | NoVolume         // `path.split("/", 1)` gave one piece, so the tuple unpacking fails
    | ReadOnly         // upload on a location not opened with "w"

  const Slashes: set<char> := {'/', '\\'}

  /** `CodexLocationBase._parseURI`: straight-line `find` and slice steps. */
  function ParseUri(uri: string): Uri {
    var (path, query) := SplitQuery(AfterServer(uri));
    Uri(SchemeOf(uri), ServerOf(AfterScheme(uri)), path, query)
  }

  /** `uri[:colonidx]` with `colonidx = uri.find(":")`. */
  function SchemeOf(uri: string): string {
    SliceTo(uri, Find(uri, ':'))
  }

  /** The text after the scheme's colon with leading slashes and backslashes removed. */
  function AfterScheme(uri: string): string {
    LStrip(SliceFrom(uri, Find(uri, ':') + 1), Slashes)
  }

  /** `rest[:slashidx]` with `slashidx = rest.find("/")`. */
  function ServerOf(rest: string): string {
    SliceTo(rest, Find(rest, '/'))
  }

  /** The text after the server part, where path and query are looked for. */
  function AfterServer(uri: string): string {
    var rest := AfterScheme(uri);
    SliceFrom(rest, Find(rest, '/') + 1)
  }

  /** Path and query: split at the first `?`, else at the first `@`, else no query. */
  function SplitQuery(tail: string): (string, string) {
    var q := Find(tail, '?');
    var at := Find(tail, '@');
    if q > -1 then (tail[..q], tail[q + 1..])
    else if at > -1 then (tail[..at], tail[at + 1..])
    else (RStrip(tail, Slashes), "")
  }

  /** The scheme is everything before the first colon, when there is one. */
  lemma SchemeBeforeColon(uri: string, i: nat)
    requires i < |uri| && uri[i] == ':' && ':' !in uri[..i]
    ensures ParseUri(uri).scheme == uri[..i]
    ensures ':' !in ParseUri(uri).scheme
  {
  }

  lemma FindFirst(s: string, c: char, i: nat)
    requires i < |s| && s[i] == c && c !in s[..i]
    ensures Find(s, c) == i
  {
  }

  /** Without a colon `find` yields -1 and the slice `uri[:-1]` drops the last character. */
  lemma SchemeWithoutColon(uri: string)
    requires ':' !in uri
    ensures ParseUri(uri).scheme == if uri == "" then "" else uri[..|uri| - 1]
    ensures AfterScheme(uri) == LStrip(uri, Slashes)
  {
  }

  /** The server is the text up to the next `/` after the stripped slashes, so it holds no `/`. */
  lemma ServerStopsAtSlash(uri: string)
    requires '/' in AfterScheme(uri)
    ensures var rest := AfterScheme(uri);
            rest[0] !in Slashes &&
            ParseUri(uri).server == rest[..Find(rest, '/')] &&
            '/' !in ParseUri(uri).server
  {
  }

  /** `?` wins over `@`: the path stops at the first `?` and the query is what follows it. */
  lemma QuestionMarkFirst(tail: string)
    requires '?' in tail
    ensures var q := Find(tail, '?');
            SplitQuery(tail) == (tail[..q], tail[q + 1..]) && '?' !in SplitQuery(tail).0
  {
  }

  /** With no `?`, an `@` splits path and query in the same way. */
  lemma AtSignSecond(tail: string)
    requires '?' !in tail && '@' in tail
    ensures var at := Find(tail, '@');
            SplitQuery(tail) == (tail[..at], tail[at + 1..]) && '@' !in SplitQuery(tail).0
  {
  }

  /** With neither marker the query is empty and trailing slashes are cut from the path. */
  lemma NoQueryMarker(tail: string)
    requires '?' !in tail && '@' !in tail
    ensures var p := SplitQuery(tail).0;
            SplitQuery(tail).1 == "" && p == RStrip(tail, Slashes) &&
            (p != "" ==> p[|p| - 1] !in Slashes)
  {
  }

  /** A well-formed `scheme://server/path` URI parses back into exactly its parts. */
  lemma ParseComposed(scheme: string, server: string, path: string)
    requires ':' !in scheme
    requires server != "" && server[0] != '\\' && '/' !in server
    requires '?' !in path && '@' !in path
    requires path == "" || path[|path| - 1] !in Slashes
    ensures ParseUri(scheme + "://" + server + "/" + path) == Uri(scheme, server, path, "")
  {
    var uri := scheme + "://" + server + "/" + path;
    ComposedParts(scheme, server, path, uri);
    NoQueryMarker(path);
  }

  lemma ComposedParts(scheme: string, server: string, path: string, uri: string)
    requires ':' !in scheme
    requires server != "" && server[0] != '\\' && '/' !in server
    requires uri == scheme + "://" + server + "/" + path
    ensures SchemeOf(uri) == scheme
    ensures AfterScheme(uri) == server + "/" + path
    ensures ServerOf(AfterScheme(uri)) == server
    ensures AfterServer(uri) == path
  {
    ComposedScheme(scheme, server + "/" + path, uri);
    ComposedRest(scheme, server + "/" + path, uri);
    ComposedServer(server, path);
  }

  lemma ComposedScheme(scheme: string, rest: string, uri: string)
    requires ':' !in scheme && uri == scheme + "://" + rest
    ensures SchemeOf(uri) == scheme
  {
    ComposedPrefix(scheme, rest, uri);
  }

  lemma ComposedRest(scheme: string, rest: string, uri: string)
    requires ':' !in scheme && uri == scheme + "://" + rest
    requires rest != "" && rest[0] !in Slashes
    ensures AfterScheme(uri) == rest
  {
    ComposedPrefix(scheme, rest, uri);
    StripTwoSlashes("//" + rest, rest);
  }

  lemma ComposedServer(server: string, path: string)
    requires '/' !in server
    ensures ServerOf(server + "/" + path) == server
    ensures SliceFrom(server + "/" + path, Find(server + "/" + path, '/') + 1) == path
  {
    var rest := server + "/" + path;
    FindAfterPrefix(server, path);
    assert rest[..|server|] == server;
    assert rest[|server| + 1..] == path;
  }

  lemma ComposedPrefix(scheme: string, rest: string, uri: string)
    requires ':' !in scheme && uri == scheme + "://" + rest
    ensures Find(uri, ':') == |scheme|
    ensures SliceFrom(uri, |scheme| + 1) == "//" + rest
  {
    assert uri[..|scheme|] == scheme && uri[|scheme|] == ':';
    FindFirst(uri, ':', |scheme|);
    assert uri[|scheme| + 1..] == "//" + rest;
  }

  lemma StripTwoSlashes(after: string, rest: string)
    requires after == "//" + rest
    requires rest != "" && rest[0] !in Slashes
    ensures LStrip(after, Slashes) == rest
  {
    assert after[1..] == "/" + rest;
    assert after[1..][1..] == rest;
  }

  lemma FindAfterPrefix(server: string, path: string)
    requires '/' !in server
    ensures Find(server + "/" + path, '/') == |server|
  {
    var rest := server + "/" + path;
    assert rest[|server|] == '/';
    assert rest[..|server|] == server;
  }

  /** `CodexLocation(uri, mode)`: which handler class a URI and mode select. */
  function Dispatch(uri: string, mode: string): (r: Result<Protocol, LocationError>)
    ensures StartsWith(uri, "ftp") ==> r == Success(Ftp)
    ensures StartsWith(uri, "afp") ==> r == Success(Ftp)
    ensures StartsWith(uri, "smb") ==> r == (if mode == "r" || mode == "w" then Success(Smb) else Failure(BadProtocol))
    ensures r.Failure? <==> !StartsWith(uri, "ftp") && !StartsWith(uri, "afp") &&
                            !(StartsWith(uri, "smb") && (mode == "r" || mode == "w"))
  {
    if StartsWith(uri, "ftp") then Success(Ftp)
    else if StartsWith(uri, "smb") && mode == "r" then Success(Smb)
    else if StartsWith(uri, "smb") && mode == "w" then Success(Smb)
    else if StartsWith(uri, "afp") then Success(Ftp)
    else Failure(BadProtocol)
  }

  /** `path.split("/", 1)` unpacked into a volume name and the remainder. */
  function SplitVolume(path: string): (r: Result<(string, string), LocationError>)
    ensures r.Failure? <==> '/' !in path
    ensures r.Success? ==> var (vol, rest) := r.value;
              '/' !in vol && path == vol + "/" + rest
  {
    var i := Find(path, '/');
    if i < 0 then Failure(NoVolume)
    else
      assert path == path[..i] + "/" + path[i + 1..];
      Success((path[..i], path[i + 1..]))
  }

  /** The platform's separator (`os.sep`): a backslash on Windows, a slash elsewhere. */
  function Sep(windows: bool): char {
    if windows then '\\' else '/'
  }

  /** `str.replace` of one character by another. */
  function ReplaceChar(s: string, from: char, to: char): (r: string)
    ensures |r| == |s|
    ensures forall j | 0 <= j < |s| :: r[j] == (if s[j] == from then to else s[j])
  {
    if s == "" then "" else [if s[0] == from then to else s[0]] + ReplaceChar(s[1..], from, to)
  }

  /** The share to mount: sep + sep + server + sep + volume, with every separator made the platform's. */
  function ServerPath(server: string, vol: string, windows: bool): (r: string)
    ensures var sep := Sep(windows);
            var other := if windows then '/' else '\\';
            other !in r && |r| == |server| + |vol| + 3 && r[0] == sep && r[1] == sep && r[|server| + 2] == sep
    ensures forall j | 0 <= j < |server| ::
              r[j + 2] == (if server[j] == '/' || server[j] == '\\' then Sep(windows) else server[j])
    ensures forall j | 0 <= j < |vol| ::
              r[j + |server| + 3] == (if vol[j] == '/' || vol[j] == '\\' then Sep(windows) else vol[j])
  {
    var sep := Sep(windows);
    var raw := [sep, sep] + server + [sep] + vol;
    assert forall j | 0 <= j < |server| :: raw[j + 2] == server[j];
    assert forall j | 0 <= j < |vol| :: raw[j + |server| + 3] == vol[j];
    if windows then ReplaceChar(raw, '/', '\\') else ReplaceChar(raw, '\\', '/')
  }

  /** When neither part holds a separator, the share path is exactly the concatenation. */
  lemma ServerPathPlain(server: string, vol: string, windows: bool)
    requires '/' !in server && '\\' !in server && '/' !in vol && '\\' !in vol
    ensures ServerPath(server, vol, windows) == [Sep(windows), Sep(windows)] + server + [Sep(windows)] + vol
  {
    var sep := Sep(windows);
    var raw := [sep, sep] + server + [sep] + vol;
    var r := ServerPath(server, vol, windows);
    assert forall j | 0 <= j < |raw| :: r[j] == raw[j] by {
      forall j | 0 <= j < |raw| ensures r[j] == raw[j] {
        if 2 <= j < |server| + 2 { assert raw[j] == server[j - 2]; }
        else if j >= |server| + 3 { assert raw[j] == vol[j - |server| - 3]; }
      }
    }
  }

  /** An opened location: the parsed URI, the mode and the handler it was given. */
  class RemoteLocation {
    const uri: Uri
    const mode: string
    const protocol: Protocol
    /** For SMB only: the share path computed by `_connect` before mounting. */
    const share: Option<string>

    constructor (uri: Uri, mode: string, protocol: Protocol, share: Option<string>)
      ensures this.uri == uri && this.mode == mode && this.protocol == protocol && this.share == share
    {
      this.uri := uri;
      this.mode := mode;
      this.protocol := protocol;
      this.share := share;
    }

    /**
     * The guard that opens `upload` in all three handler classes. The copying that follows it
     * belongs to the transport collaborator.
     */
    method Upload(localPath: string, remotePath: string) returns (r: Result<(), LocationError>)
      ensures r == Failure(ReadOnly) <==> 'w' !in mode
      ensures r.Success? <==> 'w' in mode
    {
      if 'w' !in mode {
        return Failure(ReadOnly);
      }
      return Success(());
    }
  }

  /**
   * The factory followed by the constructor's `_parseURI` and, for SMB, the volume split of
   * `_connect`. Mounting and logging in are left to the collaborators.
   */
  method Open(uriText: string, mode: string, windows: bool) returns (r: Result<RemoteLocation, LocationError>)
    ensures Dispatch(uriText, mode).Failure? ==> r == Failure(BadProtocol)
    ensures r.Success? <==> Dispatch(uriText, mode).Success? &&
                            (Dispatch(uriText, mode).value == Ftp || SplitVolume(ParseUri(uriText).path).Success?)
    ensures r.Success? && r.value.protocol == Ftp ==> r.value.share == None
    ensures r.Success? ==> r.value.uri == ParseUri(uriText) && r.value.mode == mode &&
                           Dispatch(uriText, mode) == Success(r.value.protocol)
    ensures r.Success? && r.value.protocol == Smb ==>
              SplitVolume(ParseUri(uriText).path).Success? &&
              r.value.share == Some(ServerPath(ParseUri(uriText).server, SplitVolume(ParseUri(uriText).path).value.0, windows))
    ensures Dispatch(uriText, mode) == Success(Smb) && SplitVolume(ParseUri(uriText).path).Failure? ==>
              r == Failure(NoVolume)
  {
    var protocol :- Dispatch(uriText, mode);
    var parts := ParseUri(uriText);
    var share: Option<string> := None;
    if protocol == Smb {
      var split :- SplitVolume(parts.path);
      share := Some(ServerPath(parts.server, split.0, windows));
    }
    var loc := new RemoteLocation(parts, mode, protocol, share);
    return Success(loc);
  }
}
