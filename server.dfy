/** `handle_request` (main.rs:9-41): parse the target, decode it, push it
    onto the root, canonicalize, check containment and dispatch. The
    filesystem, the percent-decoder and the content sniffer are oracles. */
module Server {
  import opened Options
  import opened Bytes
  import opened Outcomes
  import opened Request
  import opened Paths
  import opened Responses

  /** The filesystem as the handler queries it. */
  datatype FileSystem = FileSystem(
    canonicalize: Path -> Option<Path>,  // `Path::canonicalize`, `None` on error
    isDir: Path -> bool,                 // `Path::is_dir`
    isFile: Path -> bool,                // `Path::is_file`
    read: Path -> Option<seq<byte>>,     // `fs::read`, `None` on error
    walk: Path -> seq<WalkEntry>)        // `WalkDir::new`, unbounded, in walk order

  /** Everything the handler consults besides the request and the root. */
  datatype Env = Env(
    decode: string -> Option<string>,    // `url_escape::decode_component`
    fs: FileSystem,
    sniff: seq<byte> -> Option<string>)  // `infer::get`, then `mime_type`

  /** The paths of main.rs:28-30: the canonical root, the resource the
      handler serves from, and the resource's canonical form. */
  datatype Resolution = Resolution(rootCanonical: Path, resource: Path, canonical: Path)

  /** main.rs:24-30 up to the containment test. */
  function Resolve(root: Path, decoded: string, fs: FileSystem): (r: Result<Resolution, Panic>)
    ensures r.Err? ==> r.error in {RootUnresolved, ResourceUnresolved}
    ensures r.Ok? <==> fs.canonicalize(root).Some?
                       && fs.canonicalize(Join(fs.canonicalize(root).value, FullPath(root, decoded))).Some?
    ensures r.Ok? ==> && fs.canonicalize(root) == Some(r.value.rootCanonical)
                      && r.value.resource == Join(r.value.rootCanonical, FullPath(root, decoded))
                      && fs.canonicalize(r.value.resource) == Some(r.value.canonical)
  {
    var full := FullPath(root, decoded);
    match fs.canonicalize(root)
    case None => Err(RootUnresolved)
    case Some(rootCanonical) =>
      var resource := Join(rootCanonical, full);
      match fs.canonicalize(resource)
      case None => Err(ResourceUnresolved)
      case Some(canonical) => Ok(Resolution(rootCanonical, resource, canonical))
  }

  /** The containment test of main.rs:30. */
  predicate Contained(r: Resolution) {
    StartsWith(r.canonical, r.rootCanonical)
  }

  /** main.rs:30-40: the 404 outside the root; inside it, a listing for a
      directory, the file for a regular file, and nothing for anything else. */
  function Dispatch(r: Resolution, env: Env): Outcome {
    if Contained(r) then ServeResource(r.resource, env) else NotFound()
  }

  /** main.rs:31-37: a directory is tested first, then a regular file. */
  function ServeResource(res: Path, env: Env): (o: Outcome)
    ensures o.Silent? <==> !env.fs.isDir(res) && !env.fs.isFile(res)
    ensures o.Crash? ==> o.panic in {WalkFailed, FileUnreadable}
  {
    if env.fs.isDir(res) then DirectoryOutcome(env.fs.walk(res))
    else if env.fs.isFile(res) then ServeFile(env.fs.read(res), env.sniff)
    else Silent
  }

  /** Everything after the target is extracted (main.rs:21-40). */
  function HandleTarget(target: string, root: Path, env: Env): (o: Outcome)
    ensures o.Crash? ==> o.panic in {BadEscape, RootUnresolved, ResourceUnresolved, WalkFailed, FileUnreadable}
  {
    match env.decode(target)
    case None => Crash(BadEscape)
    case Some(decoded) =>
      match Resolve(root, decoded, env.fs)
      case Err(e) => Crash(e)
      case Ok(r) => Dispatch(r, env)
  }

  /** `handle_request`: `read` is what the single read delivered (`None`
      when it fails). */
  function HandleRequest(read: Option<string>, root: Path, env: Env): (o: Outcome)
    requires read.Some? ==> |read.value| <= BufferSize
    ensures read.None? ==> o == Crash(ReadFailed)
    ensures o.Crash? ==> o.panic != NoRequestLine
  {
    match ParseTarget(read)
    case Err(e) => Crash(e)
    case Ok(target) => HandleTarget(target, root, env)
  }

  // ---------------------------------------------------------------------
  // Parsing

  /** A well-formed request line hands its second token, and nothing else,
      to the rest of the handler (main.rs:10-18). */
  lemma {:induction false} RequestLineReachesHandler(received: string, lead: string, verb: string, sep: string,
                                                     target: string, tail: string, root: Path, env: Env)
    requires |received| <= BufferSize
    requires received == lead + verb + sep + target + tail
    requires AllWhitespace(lead) && '\n' !in lead
    requires sep != [] && AllWhitespace(sep) && '\n' !in sep
    requires verb != [] && NoWhitespace(verb)
    requires target != [] && NoWhitespace(target)
    requires tail != [] && IsWhitespace(tail[0])
    ensures HandleRequest(Some(received), root, env) == HandleTarget(target, root, env)
  {
    TargetOfRequestLine(received, lead, verb, sep, target, tail);
  }

  /** A request whose first line carries a single token panics at
      main.rs:18, whatever the root and the filesystem: no 404 is sent. */
  lemma {:induction false} MissingTargetCrashes(received: string, lead: string, verb: string, tail: string,
                                                root: Path, env: Env)
    requires |received| <= BufferSize
    requires received == lead + verb + tail
    requires AllWhitespace(lead) && '\n' !in lead
    requires verb != [] && NoWhitespace(verb)
    requires (|tail| >= 1 && tail[0] == '\n') || (|tail| >= 2 && tail[0] == '\r' && tail[1] == '\n')
    ensures HandleRequest(Some(received), root, env) == Crash(NoTarget)
  {
    MissingTarget(received, lead, verb, tail);
  }

  // ---------------------------------------------------------------------
  // Resolution

  /** The resource is the canonical root joined with the full path; for an
      absolute root that join is the full path itself, so the resource is
      the root followed by the request's names (main.rs:24-29). */
  lemma {:induction false} ResourceUnderRoot(root: Path, decoded: string, fs: FileSystem)
    requires Resolve(root, decoded, fs).Ok?
    ensures var r := Resolve(root, decoded, fs).value;
      && r.resource == Join(r.rootCanonical, FullPath(root, decoded))
      && (root.absolute ==> r.resource == Path(true, root.names + ParsePath(decoded).names))
      && (root.absolute ==> StartsWith(r.resource, root))
      && (!root.absolute ==> r.resource == Path(r.rootCanonical.absolute, r.rootCanonical.names + root.names + ParsePath(decoded).names))
  {
    var r := Resolve(root, decoded, fs).value;
    ResolvedResource(root, decoded, fs);
    JoinFullPath(r.rootCanonical, root, decoded);
  }

  /** The resource Resolve hands on is the join of main.rs:29. */
  lemma {:induction false} ResolvedResource(root: Path, decoded: string, fs: FileSystem)
    requires Resolve(root, decoded, fs).Ok?
    ensures Resolve(root, decoded, fs).value.resource == Join(Resolve(root, decoded, fs).value.rootCanonical, FullPath(root, decoded))
  {
  }

  /** Joining the full path onto any base: an absolute root keeps the full
      path as it is, a relative root is appended to the base. */
  lemma {:induction false} JoinFullPath(base: Path, root: Path, decoded: string)
    ensures root.absolute ==> Join(base, FullPath(root, decoded)) == Path(true, root.names + ParsePath(decoded).names)
    ensures root.absolute ==> StartsWith(Join(base, FullPath(root, decoded)), root)
    ensures !root.absolute ==> Join(base, FullPath(root, decoded)) == Path(base.absolute, base.names + root.names + ParsePath(decoded).names)
  {
    FullPathUnderRoot(root, decoded);
    JoinFull(base, root, ParsePath(decoded).names);
  }

  lemma {:induction false} JoinFull(base: Path, root: Path, names: seq<string>)
    ensures root.absolute ==> Join(base, Path(true, root.names + names)) == Path(true, root.names + names)
    ensures !root.absolute ==> Join(base, Path(false, root.names + names)) == Path(base.absolute, base.names + root.names + names)
  {
    assert base.names + (root.names + names) == base.names + root.names + names;
  }

  /** A failing canonicalization panics (main.rs:28, main.rs:30): nothing
      is written, whatever the rest of the filesystem holds. */
  lemma {:induction false} CanonicalizeFailureCrashes(target: string, root: Path, env: Env)
    requires env.decode(target).Some?
    ensures env.fs.canonicalize(root).None? ==> HandleTarget(target, root, env) == Crash(RootUnresolved)
    ensures env.fs.canonicalize(root).Some?
            && env.fs.canonicalize(Join(env.fs.canonicalize(root).value, FullPath(root, env.decode(target).value))).None?
            ==> HandleTarget(target, root, env) == Crash(ResourceUnresolved)
  {
  }

  /** Resolution consults `canonicalize` and nothing else of the filesystem. */
  lemma {:induction false} ResolveUsesOnlyCanonicalize(root: Path, decoded: string, fs: FileSystem, fs': FileSystem)
    requires fs'.canonicalize == fs.canonicalize
    ensures Resolve(root, decoded, fs') == Resolve(root, decoded, fs)
  {
  }

  /** Outside the root the only bytes written are the 404 response, and no
      directory, file or content type is consulted: replacing every oracle
      but the decoder and `canonicalize` changes nothing (main.rs:30,
      main.rs:38-39, main.rs:75-77). */
  lemma {:induction false} OutsideRootIsNotFound(target: string, root: Path, env: Env,
                                                 isDir: Path -> bool, isFile: Path -> bool,
                                                 read: Path -> Option<seq<byte>>, walk: Path -> seq<WalkEntry>,
                                                 sniff: seq<byte> -> Option<string>)
    requires env.decode(target).Some?
    requires Resolve(root, env.decode(target).value, env.fs).Ok?
    requires !Contained(Resolve(root, env.decode(target).value, env.fs).value)
    ensures HandleTarget(target, root, env) == NotFound()
    ensures HandleTarget(target, root, Env(env.decode, FileSystem(env.fs.canonicalize, isDir, isFile, read, walk), sniff)) == NotFound()
    ensures SplitResponse(HandleTarget(target, root, env).response) == Some((Utf8("HTTP/1.1 404 NOT FOUND"), []))
  {
    var decoded := env.decode(target).value;
    var env' := Env(env.decode, FileSystem(env.fs.canonicalize, isDir, isFile, read, walk), sniff);
    ResolveUsesOnlyCanonicalize(root, decoded, env.fs, env'.fs);
    assert HandleTarget(target, root, env') == Dispatch(Resolve(root, decoded, env.fs).value, env');
    NotFoundReadsBack();
  }

  /** Inside the root, a directory (checked first) gets its listing, a
      regular file its contents, and anything else no response at all
      (main.rs:31-37). */
  lemma {:induction false} ContainedDispatch(target: string, root: Path, env: Env)
    requires env.decode(target).Some?
    requires Resolve(root, env.decode(target).value, env.fs).Ok?
    requires Contained(Resolve(root, env.decode(target).value, env.fs).value)
    ensures var res := Resolve(root, env.decode(target).value, env.fs).value.resource;
      HandleTarget(target, root, env) ==
        if env.fs.isDir(res) then DirectoryOutcome(env.fs.walk(res))
        else if env.fs.isFile(res) then ServeFile(env.fs.read(res), env.sniff)
        else Silent
  {
  }

  lemma {:induction false} OkStatusIsAscii()
    ensures IsAscii(OkStatus) && |OkStatus| == 15 && OkStatus[9] == '2'
  {
  }

  /** Byte 9 of the encoding of any text that starts with the 200 status
      line is the status digit `'2'`. */
  lemma {:induction false} OkStatusDigit(text: string)
    requires |OkStatus| <= |text| && forall k :: 0 <= k < |OkStatus| ==> text[k] == OkStatus[k]
    ensures 9 < |Utf8(text)| && Utf8(text)[9] as int == '2' as int
  {
    OkStatusIsAscii();
    Utf8AsciiPrefix(text, 9);
  }

  /** Byte 9 of every file response is `'2'`. */
  lemma {:induction false} FileStatusDigit(mime: string, tail: seq<byte>)
    ensures 9 < |Utf8(FileHeader(mime)) + tail| && (Utf8(FileHeader(mime)) + tail)[9] as int == '2' as int
  {
    OkStatusIsAscii();
    OkStatusDigit(FileHeader(mime));
  }

  /** Byte 9 of every listing is `'2'`. */
  lemma {:induction false} ListingStatusDigit(paths: seq<string>)
    ensures 9 < |Utf8(ListingPage(paths))| && Utf8(ListingPage(paths))[9] as int == '2' as int
  {
    OkStatusIsAscii();
    var h := FileHeader("text/html");
    assert forall k :: 0 <= k < |OkStatus| ==> h[k] == OkStatus[k];
    OkStatusDigit(h + ListingDocument(paths));
  }

  lemma {:induction false} NotFoundChars()
    ensures |NotFoundText| == 26 && NotFoundText[9] == '4'
    ensures forall k :: 0 <= k <= 9 ==> NotFoundText[k] as int < 0x80
  {
    NotFoundTextParts();
  }

  lemma {:induction false} TextDigit(text: string, c: char)
    requires 9 < |text| && (forall k :: 0 <= k <= 9 ==> text[k] as int < 0x80) && text[9] == c
    ensures 9 < |Utf8(text)| && Utf8(text)[9] as int == c as int
  {
    Utf8AsciiPrefix(text, 9);
  }

  lemma {:induction false} NotFoundStatusDigit()
    ensures 9 < |NotFound().response| && NotFound().response[9] as int == '4' as int
  {
    NotFoundChars();
    TextDigit(NotFoundText, '4');
  }

  /** Any response other than the 404 comes from a resource that passed
      the containment test and is a directory or a regular file: nothing
      outside the root is ever listed or served. */
  lemma {:induction false} ServedOnlyInsideRoot(target: string, root: Path, env: Env)
    requires HandleTarget(target, root, env).Sent?
    requires HandleTarget(target, root, env) != NotFound()
    ensures env.decode(target).Some?
    ensures var r := Resolve(root, env.decode(target).value, env.fs);
      r.Ok? && Contained(r.value) && (env.fs.isDir(r.value.resource) || env.fs.isFile(r.value.resource))
  {
  }

  /** Every 200 file response differs from the 404 in its status digit. */
  lemma {:induction false} OkHeaderIsNotNotFound(mime: string, tail: seq<byte>)
    ensures Utf8(FileHeader(mime)) + tail != NotFound().response
  {
    FileStatusDigit(mime, tail);
    NotFoundStatusDigit();
  }

  /** Every listing differs from the 404 in its status digit. */
  lemma {:induction false} ListingIsNotNotFound(paths: seq<string>)
    ensures Utf8(ListingPage(paths)) != NotFound().response
  {
    ListingStatusDigit(paths);
    NotFoundStatusDigit();
  }

  /** A 200 response never reads as the 404: listings and files start with
      a different status line. */
  lemma {:induction false} OkIsNotNotFound(target: string, root: Path, env: Env)
    requires env.decode(target).Some?
    requires Resolve(root, env.decode(target).value, env.fs).Ok?
    requires Contained(Resolve(root, env.decode(target).value, env.fs).value)
    ensures HandleTarget(target, root, env) != NotFound()
  {
    ContainedStatusDigit(target, root, env);
    NotFoundStatusDigit();
  }

  /** Whatever a contained resource sends carries status digit `'2'`. */
  lemma {:induction false} ContainedStatusDigit(target: string, root: Path, env: Env)
    requires env.decode(target).Some?
    requires Resolve(root, env.decode(target).value, env.fs).Ok?
    requires Contained(Resolve(root, env.decode(target).value, env.fs).value)
    ensures var o := HandleTarget(target, root, env);
      o.Sent? ==> 9 < |o.response| && o.response[9] as int == '2' as int
  {
    var r := Resolve(root, env.decode(target).value, env.fs).value;
    assert HandleTarget(target, root, env) == ServeResource(r.resource, env);
    ServeStatusDigit(r.resource, env);
  }

  /** Serving a resource sends only 200 responses. */
  lemma {:induction false} ServeStatusDigit(res: Path, env: Env)
    ensures var o := ServeResource(res, env);
      o.Sent? ==> 9 < |o.response| && o.response[9] as int == '2' as int
  {
    if env.fs.isDir(res) {
      if DirectoryOutcome(env.fs.walk(res)).Sent? {
        ListingStatusDigit(ListedPaths(MaxDepth(env.fs.walk(res), 1)).value);
      }
    } else if env.fs.isFile(res) {
      if env.fs.read(res).Some? {
        var content := env.fs.read(res).value;
        FileStatusDigit(MimeType(env.sniff(content)), content);
      }
    }
  }
}
