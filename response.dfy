/** Response framing: `send_404` (main.rs:75-78), `serve_file`
    (main.rs:58-73) and `serve_directory` (main.rs:43-56). */
module Responses {
  import opened Options
  import opened Bytes
  import opened Text
  import opened Outcomes

  /** The only bytes `send_404` writes (main.rs:76). */
  const NotFoundText: string := "HTTP/1.1 404 NOT FOUND\r\n\r\n"

  /** The type used when the sniffer recognises nothing (main.rs:65). */
  const DefaultMime: string := "application/octet-stream"

  /** The status line of a successful response (main.rs:52, main.rs:69). */
  const OkStatus: string := "HTTP/1.1 200 OK"

  /** The header line naming the body's type. */
  function ContentTypeLine(mime: string): string {
    "Content-Type: " + mime
  }

  /** The status line and header that precede a file body (main.rs:69). */
  function FileHeader(mime: string): string {
    OkStatus + "\r\n" + ContentTypeLine(mime) + "\r\n\r\n"
  }

  /** The content type of `serve_file` (main.rs:62-66): the type the
      sniffer reports, or the generic binary type. */
  function MimeType(sniffed: Option<string>): string {
    match sniffed
    case Some(kind) => kind
    case None => DefaultMime
  }

  /** `send_404`. */
  function NotFound(): Outcome {
    Sent(Utf8(NotFoundText))
  }

  /** `serve_file`: the read's result (`None` when `fs::read` fails) and the
      content sniffer (`infer::get` followed by `mime_type`). */
  function ServeFile(read: Option<seq<byte>>, sniff: seq<byte> -> Option<string>): (r: Outcome)
    ensures r.Crash? <==> read.None?
    ensures r.Crash? ==> r.panic == FileUnreadable
    ensures read.Some? ==> r.Sent? && |read.value| < |r.response|
    ensures read.Some? ==> r.response[|r.response| - |read.value|..] == read.value
  {
    match read
    case None => Crash(FileUnreadable)
    case Some(content) =>
      var head := Utf8(FileHeader(MimeType(sniff(content))));
      assert (head + content)[|head|..] == content;
      Sent(head + content)
  }

  // ---------------------------------------------------------------------
  // The directory listing

  /** One item of the unbounded pre-order walk of a directory: an entry at
      some depth (0 for the walked directory itself, 1 for its children)
      with its displayed path, or an error met at some depth. */
  /** An error carries the depth of the items it stands for: failing to
      read a directory at depth `d` is an error at depth `d + 1`. With
      `max_depth(1)` the contents of a child directory are never read, so
      such a failure never becomes an item at depth 1 or less. */
  datatype WalkEntry = Entry(depth: nat, display: string) | WalkError(depth: nat)

  /** What `WalkDir::max_depth(limit)` yields of a walk: the items no deeper
      than `limit`, in walk order. */
  function MaxDepth(walk: seq<WalkEntry>, limit: nat): (r: seq<WalkEntry>)
    ensures |r| <= |walk|
    ensures forall k :: 0 <= k < |r| ==> r[k].depth <= limit
  {
    if walk == [] then []
    else (if walk[0].depth <= limit then [walk[0]] else []) + MaxDepth(walk[1..], limit)
  }

  /** The items `max_depth` yields are exactly the walk's items that are no
      deeper than the limit. */
  lemma {:induction false} MaxDepthMembers(walk: seq<WalkEntry>, limit: nat, x: WalkEntry)
    ensures x in MaxDepth(walk, limit) <==> x in walk && x.depth <= limit
  {
    if walk != [] {
      MaxDepthMembers(walk[1..], limit, x);
      assert walk == [walk[0]] + walk[1..];
    }
  }

  /** The filter of a non-empty walk: its first item if kept, then the rest. */
  lemma {:induction false} MaxDepthCons(walk: seq<WalkEntry>, limit: nat)
    requires walk != []
    ensures MaxDepth(walk, limit) == (if walk[0].depth <= limit then [walk[0]] else []) + MaxDepth(walk[1..], limit)
  {
  }

  /** Filtering distributes over concatenation. */
  lemma {:induction false} MaxDepthAppend(a: seq<WalkEntry>, b: seq<WalkEntry>, limit: nat)
    ensures MaxDepth(a + b, limit) == MaxDepth(a, limit) + MaxDepth(b, limit)
  {
    if a != [] {
      MaxDepthCons(a + b, limit);
      assert (a + b)[1..] == a[1..] + b;
      MaxDepthAppend(a[1..], b, limit);
      MaxDepthCons(a, limit);
    } else {
      assert a + b == b;
    }
  }

  /** A kept item sits in the result right after the items kept before it. */
  lemma {:induction false} MaxDepthKeeps(walk: seq<WalkEntry>, limit: nat, i: nat)
    requires i < |walk| && walk[i].depth <= limit
    ensures |MaxDepth(walk[..i], limit)| < |MaxDepth(walk, limit)|
    ensures MaxDepth(walk, limit)[|MaxDepth(walk[..i], limit)|] == walk[i]
  {
    assert walk == walk[..i] + walk[i..];
    MaxDepthAppend(walk[..i], walk[i..], limit);
    MaxDepthCons(walk[i..], limit);
  }

  /** `max_depth` keeps the walk's order: the item kept at walk position
      `i` lands at the number of items kept before it, and a later kept
      item lands strictly after it. */
  lemma {:induction false} MaxDepthOrder(walk: seq<WalkEntry>, limit: nat, i: nat, j: nat)
    requires i < j < |walk| && walk[i].depth <= limit && walk[j].depth <= limit
    ensures var a := |MaxDepth(walk[..i], limit)|; var b := |MaxDepth(walk[..j], limit)|;
      && a < b < |MaxDepth(walk, limit)|
      && MaxDepth(walk, limit)[a] == walk[i]
      && MaxDepth(walk, limit)[b] == walk[j]
  {
    MaxDepthKeeps(walk, limit, i);
    MaxDepthKeeps(walk, limit, j);
    assert walk[..j] == walk[..i] + walk[i..j];
    MaxDepthAppend(walk[..i], walk[i..j], limit);
    MaxDepthCons(walk[i..j], limit);
  }

  /** The displayed paths of the yielded entries, or the panic of the first
      `entry.unwrap()` that meets an error (main.rs:46-47). */
  function ListedPaths(entries: seq<WalkEntry>): (r: Result<seq<string>, Panic>)
    ensures r.Ok? <==> forall k :: 0 <= k < |entries| ==> entries[k].Entry?
    ensures r.Err? ==> r.error == WalkFailed
    ensures r.Ok? ==> |r.value| == |entries| && forall k :: 0 <= k < |entries| ==> r.value[k] == entries[k].display
  {
    if entries == [] then Ok([])
    else
      match entries[0]
      case WalkError(_) => Err(WalkFailed)
      case Entry(_, path) =>
        match ListedPaths(entries[1..])
        case Err(e) => Err(e)
        case Ok(paths) => Ok([path] + paths)
  }

  /** One link of the listing (main.rs:48): link target and link text are
      both the displayed path, without any escaping. */
  function Link(path: string): string {
    "<a href=\"" + path + "\">" + path + "</a><br>"
  }

  /** The accumulated `body` of `serve_directory`: one link per path, in order. */
  function ListingBody(paths: seq<string>): string {
    if paths == [] then [] else Link(paths[0]) + ListingBody(paths[1..])
  }

  /** The HTML document of a listing (main.rs:53). */
  function ListingDocument(paths: seq<string>): string {
    "<html><body>" + ListingBody(paths) + "</body></html>"
  }

  /** The whole text `serve_directory` formats (main.rs:51-54): its fixed
      header is the file header with the type `text/html`. */
  function ListingPage(paths: seq<string>): string {
    FileHeader("text/html") + ListingDocument(paths)
  }

  /** What `serve_directory` does with the walk of its directory. */
  function DirectoryOutcome(walk: seq<WalkEntry>): (r: Outcome)
    ensures !r.Silent?
    ensures r.Crash? ==> r.panic == WalkFailed
    ensures r.Sent? <==> forall k :: 0 <= k < |MaxDepth(walk, 1)| ==> MaxDepth(walk, 1)[k].Entry?
  {
    match ListedPaths(MaxDepth(walk, 1))
    case Err(e) => Crash(e)
    case Ok(paths) => Sent(Utf8(ListingPage(paths)))
  }

  /** Adding a path at the end adds its link at the end. */
  lemma {:induction false} ListingBodySnoc(paths: seq<string>, path: string)
    ensures ListingBody(paths + [path]) == ListingBody(paths) + Link(path)
  {
    if paths == [] {
      assert ListingBody([path]) == Link(path) + ListingBody([]);
    } else {
      assert (paths + [path])[1..] == paths[1..] + [path];
      ListingBodySnoc(paths[1..], path);
    }
  }

  /** Yielding one more entry adds its path at the end. */
  lemma {:induction false} ListedPathsSnoc(entries: seq<WalkEntry>, path: string, depth: nat)
    requires ListedPaths(entries).Ok?
    ensures ListedPaths(entries + [Entry(depth, path)]) == Ok(ListedPaths(entries).value + [path])
  {
    var longer := entries + [Entry(depth, path)];
    assert forall k :: 0 <= k < |longer| ==> longer[k].Entry? by {
      forall k | 0 <= k < |longer| ensures longer[k].Entry? {
        if k < |entries| {
          assert longer[k] == entries[k];
        }
      }
    }
    var r := ListedPaths(longer).value;
    var want := ListedPaths(entries).value + [path];
    assert |r| == |want|;
    forall k | 0 <= k < |r| ensures r[k] == want[k] {
      if k < |entries| {
        assert longer[k] == entries[k];
      }
    }
    assert r == want;
  }

  /** A walk whose kept items are all entries gives the listing page. */
  lemma {:induction false} DirectoryListed(walk: seq<WalkEntry>, paths: seq<string>)
    requires ListedPaths(MaxDepth(walk, 1)) == Ok(paths)
    ensures DirectoryOutcome(walk) == Sent(Utf8(ListingPage(paths)))
  {
  }

  /** A kept walk error makes the directory handler panic. */
  lemma {:induction false} DirectoryFails(walk: seq<WalkEntry>, i: nat)
    requires i < |MaxDepth(walk, 1)| && MaxDepth(walk, 1)[i].WalkError?
    ensures DirectoryOutcome(walk) == Crash(WalkFailed)
  {
    assert !MaxDepth(walk, 1)[i].Entry?;
  }

  /** One more entry in the loop of `serve_directory` extends the listed
      paths by its path and the body by its link. */
  lemma {:induction false} ListingStep(entries: seq<WalkEntry>, i: nat, body: string)
    requires i < |entries| && entries[i].Entry?
    requires ListedPaths(entries[..i]).Ok? && body == ListingBody(ListedPaths(entries[..i]).value)
    ensures ListedPaths(entries[..i + 1]).Ok?
    ensures body + Link(entries[i].display) == ListingBody(ListedPaths(entries[..i + 1]).value)
  {
    assert entries[..i + 1] == entries[..i] + [Entry(entries[i].depth, entries[i].display)];
    ListedPathsSnoc(entries[..i], entries[i].display, entries[i].depth);
    ListingBodySnoc(ListedPaths(entries[..i]).value, entries[i].display);
  }

  /** `serve_directory` (main.rs:43-56): the loop appends one link per
      yielded entry to `body`, panicking at the first error. */
  method ServeDirectory(walk: seq<WalkEntry>) returns (o: Outcome)
    ensures o == DirectoryOutcome(walk)
  {
    var entries := MaxDepth(walk, 1);
    var body: string := "";
    var i := 0;
    while i < |entries|
      invariant 0 <= i <= |entries|
      invariant ListedPaths(entries[..i]).Ok?
      invariant body == ListingBody(ListedPaths(entries[..i]).value)
    {
      match entries[i]
      case WalkError(_) =>
        DirectoryFails(walk, i);
        return Crash(WalkFailed);
      case Entry(_, path) =>
        ListingStep(entries, i, body);
        body := body + Link(path);
      i := i + 1;
    }
    assert entries[..i] == entries;
    ghost var paths := ListedPaths(entries).value;
    var response := FileHeader("text/html") + ("<html><body>" + body + "</body></html>");
    assert response == ListingPage(paths);
    DirectoryListed(walk, paths);
    o := Sent(Utf8(response));
  }

  // ---------------------------------------------------------------------
  // How a client reads the responses back

  /** The blank line that ends the head of a response: CR LF CR LF. */
  const BlankLine: seq<byte> := [13, 10, 13, 10]

  /** A blank line starts at index `j` of `r`. */
  predicate BlankAt(r: seq<byte>, j: nat) {
    j + 4 <= |r| && r[j] == 13 && r[j + 1] == 10 && r[j + 2] == 13 && r[j + 3] == 10
  }

  /** Index of the first blank line in `r`, or `|r|` when there is none. */
  function HeadEnd(r: seq<byte>): (i: nat)
    ensures i <= |r|
    ensures i + 4 <= |r| ==> BlankAt(r, i)
    ensures i + 4 > |r| ==> i == |r|
    ensures forall j :: 0 <= j < i ==> !BlankAt(r, j)
  {
    if |r| < 4 then |r|
    else if BlankAt(r, 0) then 0
    else
      var i := 1 + HeadEnd(r[1..]);
      assert forall j :: 1 <= j < i ==> BlankAt(r, j) == BlankAt(r[1..], j - 1);
      i
  }

  /** A client's reading of a response: the head before the first blank
      line and the body after it, or `None` when there is no blank line. */
  function SplitResponse(r: seq<byte>): Option<(seq<byte>, seq<byte>)> {
    var i := HeadEnd(r);
    if i + 4 <= |r| then Some((r[..i], r[i + 4..])) else None
  }

  /** A head in which every CR is followed, two bytes later, by a byte that
      is not CR: no blank line starts inside it. */
  predicate NoBlankLineIn(head: seq<byte>) {
    forall j :: 0 <= j < |head| && head[j] == 13 ==> j + 2 < |head| && head[j + 2] != 13
  }

  /** The first blank line of `head + BlankLine + body` is the one after the head. */
  lemma {:induction false} HeadEndAfter(head: seq<byte>, body: seq<byte>)
    requires NoBlankLineIn(head)
    ensures HeadEnd(head + BlankLine + body) == |head|
  {
    var r := head + BlankLine + body;
    if head == [] {
      assert BlankAt(r, 0);
    } else {
      assert !BlankAt(r, 0) by {
        if head[0] == 13 {
          assert r[2] == head[2];
        }
      }
      assert NoBlankLineIn(head[1..]) by {
        forall j | 0 <= j < |head[1..]| && head[1..][j] == 13
          ensures j + 2 < |head[1..]| && head[1..][j + 2] != 13
        {
          assert head[j + 1] == 13;
        }
      }
      assert r[1..] == head[1..] + BlankLine + body;
      HeadEndAfter(head[1..], body);
    }
  }

  /** A response made of such a head, a blank line and a body reads back as
      that head and that body, whatever bytes the body holds. */
  lemma {:induction false} SplitAtBlankLine(head: seq<byte>, body: seq<byte>)
    requires NoBlankLineIn(head)
    ensures SplitResponse(head + BlankLine + body) == Some((head, body))
  {
    HeadEndAfter(head, body);
    var r := head + BlankLine + body;
    assert r[..|head|] == head;
    assert r[|head| + 4..] == body;
  }

  /** Text without a carriage return encodes without a CR byte. */
  lemma {:induction false} Utf8WithoutCr(s: string)
    requires '\r' !in s
    ensures 13 !in Utf8(s)
  {
    if s != [] {
      assert '\r' !in s[1..];
      Utf8WithoutCr(s[1..]);
      assert 13 !in EncodeChar(s[0]);
    }
  }

  /** The head of a successful response as a client sees it: the status
      line and the content-type line. */
  function OkHead(mime: string): string {
    OkStatus + "\r\n" + ContentTypeLine(mime)
  }

  /** The line break and the blank line as bytes. */
  lemma {:induction false} Utf8Breaks()
    ensures Utf8("\r\n") == [13, 10]
    ensures Utf8("\r\n\r\n") == BlankLine
  {
    assert Utf8("\r\n") == EncodeChar('\r') + Utf8("\n");
    assert "\r\n\r\n" == "\r\n" + "\r\n";
    Utf8Append("\r\n", "\r\n");
  }

  /** Two CR-free lines joined by a line break leave no blank line inside
      the head, when the second line starts with an ASCII character other
      than CR. */
  lemma {:induction false} TwoLineHead(a: string, b: string)
    requires '\r' !in a && '\r' !in b
    requires b != [] && b[0] as int < 0x80
    ensures NoBlankLineIn(Utf8(a) + [13, 10] + Utf8(b))
  {
    Utf8WithoutCr(a);
    Utf8WithoutCr(b);
    var head := Utf8(a) + [13, 10] + Utf8(b);
    assert Utf8(b)[0] as int == b[0] as int;
    forall j | 0 <= j < |head| && head[j] == 13 ensures j + 2 < |head| && head[j + 2] != 13 {
      assert j == |Utf8(a)|;
      assert head[j + 2] == Utf8(b)[0];
    }
  }

  /** A two-line head, the blank line and a body read back as that head
      and that body. */
  lemma {:induction false} HeadSplits(a: string, b: string, body: seq<byte>)
    requires '\r' !in a && '\r' !in b
    requires b != [] && b[0] as int < 0x80
    ensures SplitResponse(Utf8(a + "\r\n" + b + "\r\n\r\n") + body) == Some((Utf8(a + "\r\n" + b), body))
  {
    Utf8Breaks();
    Utf8Append(a, "\r\n");
    Utf8Append(a + "\r\n", b);
    Utf8Append(a + "\r\n" + b, "\r\n\r\n");
    TwoLineHead(a, b);
    SplitAtBlankLine(Utf8(a) + [13, 10] + Utf8(b), body);
  }

  /** The lines of a 200 head hold no carriage return, and the type line
      starts with an ASCII letter. */
  lemma {:induction false} OkHeaderParts(mime: string)
    requires '\r' !in mime
    ensures '\r' !in OkStatus && '\r' !in ContentTypeLine(mime)
    ensures ContentTypeLine(mime) != [] && ContentTypeLine(mime)[0] == 'C'
  {
  }

  /** The head of a successful response ends exactly after its
      content-type line. */
  lemma {:induction false} OkHeadSplits(mime: string, body: seq<byte>)
    requires '\r' !in mime
    ensures SplitResponse(Utf8(FileHeader(mime)) + body) == Some((Utf8(OkHead(mime)), body))
  {
    OkHeaderParts(mime);
    HeadSplits(OkStatus, ContentTypeLine(mime), body);
  }

  /** The fixed texts of the responses hold no carriage return of their own. */
  lemma {:induction false} FixedTextsWithoutCr()
    ensures '\r' !in "HTTP/1.1 404 NOT FOUND"
    ensures '\r' !in "text/html"
    ensures '\r' !in DefaultMime
  {
  }

  /** The 404 text is its status line and a blank line, all ASCII. */
  lemma {:induction false} NotFoundTextParts()
    ensures NotFoundText == "HTTP/1.1 404 NOT FOUND" + "\r\n\r\n"
    ensures IsAscii(NotFoundText) && |NotFoundText| == 26
  {
  }

  /** A status line alone, followed by the blank line, reads back as a head
      with that line and an empty body. */
  lemma {:induction false} StatusOnlySplits(status: string)
    requires '\r' !in status
    ensures SplitResponse(Utf8(status + "\r\n\r\n")) == Some((Utf8(status), []))
  {
    Utf8Append(status, "\r\n\r\n");
    Utf8Breaks();
    Utf8WithoutCr(status);
    assert Utf8(status) + BlankLine == Utf8(status) + BlankLine + [];
    SplitAtBlankLine(Utf8(status), []);
  }

  /** `send_404` writes a head holding only the status line, and no body
      (main.rs:75-77). */
  lemma {:induction false} NotFoundReadsBack()
    ensures NotFound().Sent?
    ensures SplitResponse(NotFound().response) == Some((Utf8("HTTP/1.1 404 NOT FOUND"), []))
  {
    NotFoundTextParts();
    FixedTextsWithoutCr();
    StatusOnlySplits("HTTP/1.1 404 NOT FOUND");
  }

  /** The 404 response is 26 bytes, one per character of its text. */
  lemma {:induction false} NotFoundLength()
    ensures |NotFound().response| == 26
    ensures forall i :: 0 <= i < 26 ==> NotFound().response[i] as int == NotFoundText[i] as int
  {
    NotFoundTextParts();
    Utf8OfAscii(NotFoundText);
  }

  /** A served file reads back as a 200 head naming the sniffed type, or
      `application/octet-stream` when the sniffer finds none, followed by
      the file's bytes unchanged (main.rs:59-72). */
  lemma {:induction false} FileReadsBack(content: seq<byte>, sniff: seq<byte> -> Option<string>)
    requires sniff(content).Some? ==> '\r' !in sniff(content).value
    ensures ServeFile(Some(content), sniff).Sent?
    ensures var m := if sniff(content).Some? then sniff(content).value else "application/octet-stream";
      SplitResponse(ServeFile(Some(content), sniff).response) == Some((Utf8(OkHead(m)), content))
  {
    var m := MimeType(sniff(content));
    FixedTextsWithoutCr();
    OkHeadSplits(m, content);
  }

  /** A failed read panics (main.rs:59): nothing is written. */
  lemma {:induction false} UnreadableFileCrashes(sniff: seq<byte> -> Option<string>)
    ensures ServeFile(None, sniff) == Crash(FileUnreadable)
  {
  }

  /** A listing reads back as a 200 head of type `text/html` and the HTML
      document, encoded as UTF-8 (main.rs:51-55). */
  lemma {:induction false} ListingReadsBack(paths: seq<string>)
    ensures SplitResponse(Utf8(ListingPage(paths))) == Some((Utf8(OkHead("text/html")), Utf8(ListingDocument(paths))))
  {
    Utf8Append(FileHeader("text/html"), ListingDocument(paths));
    FixedTextsWithoutCr();
    OkHeadSplits("text/html", Utf8(ListingDocument(paths)));
  }

  /** The directory's outcome: the listing of the yielded paths, or a
      panic exactly when one of the yielded items is an error. */
  lemma {:induction false} DirectoryOutcomeCases(walk: seq<WalkEntry>)
    ensures DirectoryOutcome(walk).Crash? <==>
      exists i :: 0 <= i < |walk| && walk[i].WalkError? && walk[i].depth <= 1
    ensures DirectoryOutcome(walk).Crash? ==> DirectoryOutcome(walk).panic == WalkFailed
  {
    var entries := MaxDepth(walk, 1);
    if DirectoryOutcome(walk).Crash? {
      var k :| 0 <= k < |entries| && !entries[k].Entry?;
      MaxDepthMembers(walk, 1, entries[k]);
    }
    if exists i :: 0 <= i < |walk| && walk[i].WalkError? && walk[i].depth <= 1 {
      var i :| 0 <= i < |walk| && walk[i].WalkError? && walk[i].depth <= 1;
      MaxDepthMembers(walk, 1, walk[i]);
      var k :| 0 <= k < |entries| && entries[k] == walk[i];
    }
  }

  // ---------------------------------------------------------------------
  // Reading a listing body back

  /** One link `<a href="P">P</a><br>` at the start of `s`: the link
      target `P` is read up to the next `'"'` and the link text must repeat
      it. Gives `P` and what follows the link, or `None`. */
  function ParseLink(s: string): (r: Option<(string, string)>)
    ensures r.Some? ==> |r.value.1| < |s|
  {
    if |s| < 9 || s[..9] != "<a href=\"" then None
    else
      var t := s[9..];
      var p := t[..IndexOf(t, '"')];
      var close := "\">" + p + "</a><br>";
      var after := t[|p|..];
      if |after| < |close| || after[..|close|] != close then None
      else Some((p, after[|close|..]))
  }

  /** The paths of a listing body, link after link; `None` for anything
      that is not a sequence of links. */
  function ParseListing(s: string): Option<seq<string>>
    decreases |s|
  {
    if s == [] then Some([])
    else
      match ParseLink(s)
      case None => None
      case Some((p, rest)) =>
        match ParseListing(rest)
        case None => None
        case Some(paths) => Some([p] + paths)
  }

  /** A link is its opening `<a href="`, its path, and the rest of it. */
  lemma {:induction false} LinkParts(p: string, rest: string)
    ensures var s := Link(p) + rest;
      && 9 <= |s| && s[..9] == "<a href=\""
      && s[9..] == p + (("\">" + p + "</a><br>") + rest)
  {
    var s := Link(p) + rest;
    assert s == "<a href=\"" + (p + (("\">" + p + "</a><br>") + rest));
  }

  /** A link to a path without `'"'` reads back as that path and what
      follows the link. */
  lemma {:induction false} ParseLinkOf(p: string, rest: string)
    requires '"' !in p
    ensures ParseLink(Link(p) + rest) == Some((p, rest))
  {
    var close := "\">" + p + "</a><br>";
    LinkParts(p, rest);
    var t := (Link(p) + rest)[9..];
    IndexOfAppend(p, close + rest, '"');
    assert t[..IndexOf(t, '"')] == p;
    assert t[|p|..] == close + rest;
    assert (close + rest)[..|close|] == close;
    assert (close + rest)[|close|..] == rest;
  }

  /** Paths without `'"'` stay so after dropping the first. */
  lemma {:induction false} NoQuoteTail(paths: seq<string>)
    requires paths != [] && forall k :: 0 <= k < |paths| ==> '"' !in paths[k]
    ensures forall k :: 0 <= k < |paths[1..]| ==> '"' !in paths[1..][k]
  {
    forall k | 0 <= k < |paths[1..]| ensures '"' !in paths[1..][k] {
      assert paths[1..][k] == paths[k + 1];
    }
  }

  /** A listing body is its first link followed by the body of the rest. */
  lemma {:induction false} ListingBodyCons(paths: seq<string>)
    requires paths != []
    ensures ListingBody(paths) == Link(paths[0]) + ListingBody(paths[1..])
  {
  }

  /** A link in front of a listing that reads back puts its path in front. */
  lemma {:induction false} ParseListingCons(p: string, rest: string, paths: seq<string>)
    requires '"' !in p && ParseListing(rest) == Some(paths)
    ensures ParseListing(Link(p) + rest) == Some([p] + paths)
  {
    ParseLinkOf(p, rest);
  }

  /** Every link's target and text are the same path, in walk order: a
      listing of paths without `'"'` reads back as exactly those paths. */
  lemma {:induction false} ParseListingBody(paths: seq<string>)
    requires forall k :: 0 <= k < |paths| ==> '"' !in paths[k]
    ensures ParseListing(ListingBody(paths)) == Some(paths)
  {
    if paths != [] {
      ListingBodyCons(paths);
      NoQuoteTail(paths);
      ParseListingBody(paths[1..]);
      ParseListingCons(paths[0], ListingBody(paths[1..]), paths[1..]);
      assert [paths[0]] + paths[1..] == paths;
    }
  }
}
