/** Unix paths as `std::path` sees them: an absolute flag and a sequence of
    names, with `push`, `join` and `starts_with` working component by
    component (main.rs:24-30). */
module Paths {
  import opened Text

  /** One item of `Path::components()`: the root directory or a name. */
  datatype Component = RootDir | Name(name: string)

  /** A path: whether it begins at the root, and its names in order
      (`".."` stays a name; canonicalizing resolves it). */
  datatype Path = Path(absolute: bool, names: seq<string>)

  /** A name as `components()` yields it: non-empty, not `"."`, without `'/'`. */
  predicate ValidName(n: string) {
    n != [] && n != "." && '/' !in n
  }

  predicate WellFormed(p: Path) {
    forall i :: 0 <= i < |p.names| ==> ValidName(p.names[i])
  }

  /** `Path::components()` of `p`. */
  function Components(p: Path): (r: seq<Component>)
    ensures |r| == |p.names| + (if p.absolute then 1 else 0)
  {
    (if p.absolute then [RootDir] else []) + NameComponents(p.names)
  }

  function NameComponents(names: seq<string>): (r: seq<Component>)
    ensures |r| == |names|
    ensures forall i :: 0 <= i < |names| ==> r[i] == Name(names[i])
  {
    if names == [] then [] else [Name(names[0])] + NameComponents(names[1..])
  }

  /** The names of a path string: the pieces between `'/'` characters, with
      the empty pieces and `"."` dropped. */
  function Names(s: string): (r: seq<string>)
    ensures forall i :: 0 <= i < |r| ==> ValidName(r[i])
    decreases |s|
  {
    var k := IndexOf(s, '/');
    var piece := s[..k];
    var head := if piece == [] || piece == "." then [] else [piece];
    if k == |s| then head else head + Names(s[k + 1..])
  }

  /** `Path::new(s)`, seen through its components. */
  function ParsePath(s: string): (r: Path)
    ensures WellFormed(r)
    ensures r.absolute <==> (s != [] && s[0] == '/')
  {
    Path(s != [] && s[0] == '/', Names(s))
  }

  /** The names joined by `'/'`. */
  function JoinNames(names: seq<string>): string {
    if names == [] then []
    else if |names| == 1 then names[0]
    else names[0] + "/" + JoinNames(names[1..])
  }

  /** The string of a path, with a leading `'/'` when it is absolute. */
  function Render(p: Path): string {
    (if p.absolute then "/" else "") + JoinNames(p.names)
  }

  /** `PathBuf::push` (and so `Path::join`, which clones and pushes): an
      absolute argument replaces the path, a relative one is appended. */
  function Push(base: Path, q: Path): Path {
    if q.absolute then q else Path(base.absolute, base.names + q.names)
  }

  /** `Path::join` on Unix: a clone of `base` with `q` pushed onto it. */
  function Join(base: Path, q: Path): Path {
    Push(base, q)
  }

  /** `Path::starts_with`: the components of `base` are a prefix of those of `p`. */
  predicate StartsWith(p: Path, base: Path) {
    |Components(base)| <= |Components(p)| && Components(p)[..|Components(base)|] == Components(base)
  }

  /** `str::trim_start_matches('/')`: `s` without every leading `'/'`. */
  function TrimLeadingSlashes(s: string): (r: string)
    ensures |r| <= |s| && r == s[|s| - |r|..]
    ensures forall i :: 0 <= i < |s| - |r| ==> s[i] == '/'
    ensures r == [] || r[0] != '/'
  {
    if s != [] && s[0] == '/' then TrimLeadingSlashes(s[1..]) else s
  }

  /** The path built at main.rs:24-25: the root with the decoded request
      path, stripped of its leading slashes, pushed onto it. */
  function FullPath(root: Path, decoded: string): Path {
    Push(root, ParsePath(TrimLeadingSlashes(decoded)))
  }

  /** A leading `'/'` contributes no name. */
  lemma {:induction false} NamesDropSlash(s: string)
    requires s != [] && s[0] == '/'
    ensures Names(s) == Names(s[1..])
  {
    assert IndexOf(s, '/') == 0;
    assert s[..0] == [];
  }

  /** The names of a string do not change when it starts with one more `'/'`. */
  lemma {:induction false} NamesAfterSlash(s: string)
    ensures Names("/" + s) == Names(s)
  {
    assert ("/" + s)[0] == '/' && ("/" + s)[1..] == s;
    NamesDropSlash("/" + s);
  }

  /** Trimming the leading slashes keeps every name. */
  lemma {:induction false} TrimKeepsNames(s: string)
    ensures Names(TrimLeadingSlashes(s)) == Names(s)
    decreases |s|
  {
    if s != [] && s[0] == '/' {
      var t := s[1..];
      assert TrimLeadingSlashes(s) == TrimLeadingSlashes(t);
      TrimKeepsNames(t);
      NamesDropSlash(s);
    }
  }

  /** Trimming makes the request path relative and keeps its names. */
  lemma {:induction false} TrimmedPathIsRelative(s: string)
    ensures ParsePath(TrimLeadingSlashes(s)) == Path(false, ParsePath(s).names)
  {
    TrimKeepsNames(s);
  }

  /** Trimming twice is trimming once. */
  lemma {:induction false} TrimIdempotent(s: string)
    ensures TrimLeadingSlashes(TrimLeadingSlashes(s)) == TrimLeadingSlashes(s)
  {
  }

  /** The decoded path always lands under the root (main.rs:24-25): the
      full path is the root followed by the request's names, whatever
      slashes the request starts with. */
  lemma {:induction false} FullPathUnderRoot(root: Path, decoded: string)
    ensures FullPath(root, decoded) == Path(root.absolute, root.names + ParsePath(decoded).names)
    ensures StartsWith(FullPath(root, decoded), root)
  {
    TrimmedPathIsRelative(decoded);
    var full := FullPath(root, decoded);
    StartsWithNames(full, root);
    assert full.names[..|root.names|] == root.names;
  }

  /** Without the trim, an absolute request path would replace the root. */
  lemma {:induction false} UntrimmedPushReplacesRoot(root: Path, decoded: string)
    requires decoded != [] && decoded[0] == '/'
    ensures Push(root, ParsePath(decoded)) == ParsePath(decoded)
  {
  }

  /** Removing a single leading `'/'`, as opposed to all of them, leaves
      `"//etc"` absolute, so the root would be replaced by `/etc`. */
  lemma {:induction false} SingleStripStaysAbsolute()
    ensures ParsePath("//etc"[1..]).absolute
    ensures !ParsePath(TrimLeadingSlashes("//etc")).absolute
  {
    assert "//etc"[1..][0] == '/';
  }

  /** `starts_with` in terms of the flag and the names: a relative empty base
      is a prefix of everything; otherwise the flags agree and the base's
      names are a prefix of the path's. */
  lemma {:induction false} StartsWithNames(p: Path, base: Path)
    ensures StartsWith(p, base) <==>
      (!base.absolute && base.names == [])
      || (p.absolute == base.absolute && |base.names| <= |p.names| && p.names[..|base.names|] == base.names)
  {
    var cp, cb := Components(p), Components(base);
    var off := if base.absolute then 1 else 0;
    if StartsWith(p, base) && !(!base.absolute && base.names == []) {
      assert |cb| > 0;
      if base.absolute {
        assert cb[0] == RootDir;
        assert cp[0] == RootDir;
        assert p.absolute;
      } else {
        assert cb[0] == Name(base.names[0]);
        assert cp[0] == cb[0];
        assert !p.absolute;
      }
      forall i | 0 <= i < |base.names| ensures p.names[i] == base.names[i] {
        assert cp[i + off] == cb[i + off];
      }
    }
    if p.absolute == base.absolute && |base.names| <= |p.names| && p.names[..|base.names|] == base.names {
      assert cp[..|cb|] == cb by {
        forall i | 0 <= i < |cb| ensures cp[i] == cb[i] {
          if i >= off {
            assert p.names[i - off] == base.names[i - off];
          }
        }
      }
    }
    if !base.absolute && base.names == [] {
      assert cb == [];
    }
  }

  /** Every path starts with itself: the root is inside the root. */
  lemma {:induction false} StartsWithSelf(p: Path)
    ensures StartsWith(p, p)
  {
    assert Components(p)[..|Components(p)|] == Components(p);
  }

  /** Appending characters to the last name extends the rendered string. */
  lemma {:induction false} JoinNamesExtendLast(names: seq<string>, x: string)
    requires names != []
    ensures JoinNames(names[..|names| - 1] + [names[|names| - 1] + x]) == JoinNames(names) + x
  {
    var longer := names[..|names| - 1] + [names[|names| - 1] + x];
    if |names| > 1 {
      JoinNamesExtendLast(names[1..], x);
      assert longer[1..] == names[1..][..|names[1..]| - 1] + [names[1..][|names[1..]| - 1] + x];
    }
  }

  /** A sibling whose last name extends the base's last name, such as
      `/root-evil` next to `/root`, has the base's string as a prefix of
      its own, yet does not start with the base: the containment test works
      on components, not on characters (main.rs:30). */
  lemma {:induction false} StringPrefixIsNotEnough(base: Path, x: string)
    requires base.names != [] && x != []
    ensures var sibling := Path(base.absolute, base.names[..|base.names| - 1] + [base.names[|base.names| - 1] + x]);
      Render(base) <= Render(sibling) && !StartsWith(sibling, base)
  {
    var n := |base.names|;
    var sibling := Path(base.absolute, base.names[..n - 1] + [base.names[n - 1] + x]);
    JoinNamesExtendLast(base.names, x);
    assert Render(sibling) == Render(base) + x;
    StartsWithNames(sibling, base);
    assert sibling.names[n - 1] != base.names[n - 1];
  }

  /** The instance the containment test exists for. */
  lemma {:induction false} RootEvilIsOutsideRoot()
    ensures Render(Path(true, ["root"])) == "/root" && Render(Path(true, ["root-evil"])) == "/root-evil"
    ensures !StartsWith(Path(true, ["root-evil"]), Path(true, ["root"]))
    ensures StartsWith(Path(true, ["root", "a"]), Path(true, ["root"]))
  {
    RootEvilRenders();
    RootEvilIsSibling();
    StartsWithNames(Path(true, ["root", "a"]), Path(true, ["root"]));
    assert ["root", "a"][..1] == ["root"];
  }

  lemma {:induction false} RootEvilRenders()
    ensures Render(Path(true, ["root"])) == "/root" && Render(Path(true, ["root-evil"])) == "/root-evil"
  {
  }

  lemma {:induction false} RootEvilIsSibling()
    ensures !StartsWith(Path(true, ["root-evil"]), Path(true, ["root"]))
  {
    StringPrefixIsNotEnough(Path(true, ["root"]), "-evil");
    assert "root" + "-evil" == "root-evil";
    assert ["root"][..0] + ["root" + "-evil"] == ["root-evil"];
  }

  /** Splitting the `'/'`-join of valid names gives them back. */
  lemma {:induction false} NamesOfJoin(names: seq<string>)
    requires forall i :: 0 <= i < |names| ==> ValidName(names[i])
    ensures Names(JoinNames(names)) == names
  {
    if |names| == 1 {
      NamesOfName(names[0]);
    } else if |names| > 1 {
      assert JoinNames(names) == names[0] + ("/" + JoinNames(names[1..]));
      NamesOfLead(names[0], JoinNames(names[1..]));
      NamesOfJoin(names[1..]);
    }
  }

  /** A valid name alone splits into itself. */
  lemma {:induction false} NamesOfName(n: string)
    requires ValidName(n)
    ensures Names(n) == [n]
  {
    assert IndexOf(n, '/') == |n|;
    assert n[..|n|] == n;
  }

  /** A valid name followed by `'/'` contributes itself and nothing more. */
  lemma {:induction false} NamesOfLead(n: string, rest: string)
    requires ValidName(n)
    ensures Names(n + ("/" + rest)) == [n] + Names(rest)
  {
    var s := n + ("/" + rest);
    IndexOfAppend(n, "/" + rest, '/');
    assert IndexOf(s, '/') == |n|;
    assert s[..|n|] == n;
    assert s[|n| + 1..] == rest;
  }

  /** Rendering a well-formed path and reading it back gives the same path. */
  lemma {:induction false} ParseRender(p: Path)
    requires WellFormed(p)
    ensures ParsePath(Render(p)) == p
  {
    NamesOfJoin(p.names);
    if p.absolute {
      assert Render(p) == "/" + JoinNames(p.names);
      NamesAfterSlash(JoinNames(p.names));
    } else {
      assert Render(p) == JoinNames(p.names);
      if p.names != [] {
        assert JoinNames(p.names)[0] == p.names[0][0];
      }
    }
  }
}
