/** The request parser of `handle_request` (main.rs:10-18): one read into a
    512-byte buffer, the first line of its text, and the second
    whitespace-separated token of that line. */
module Request {
  import opened Options
  import opened Text
  import opened Outcomes

  /** Size of the read buffer (main.rs:10). */
  const BufferSize: nat := 512

  /** `char::is_whitespace`: the Unicode White_Space property. */
  predicate IsWhitespace(c: char) {
    ('\t' <= c <= '\r') || c == ' ' || c == '\U{85}' || c == '\U{A0}' || c == '\U{1680}'
    || ('\U{2000}' <= c <= '\U{200A}') || c == '\U{2028}' || c == '\U{2029}' || c == '\U{202F}'
    || c == '\U{205F}' || c == '\U{3000}'
  }

  predicate AllWhitespace(s: string) {
    forall i :: 0 <= i < |s| ==> IsWhitespace(s[i])
  }

  predicate NoWhitespace(s: string) {
    forall i :: 0 <= i < |s| ==> !IsWhitespace(s[i])
  }

  /** The text of the whole buffer: the bytes read, then the zero bytes the
      buffer was initialised with. All 512 positions are decoded, so the
      padding becomes NUL characters. */
  function BufferText(received: string): (r: string)
    requires |received| <= BufferSize
    ensures |r| == BufferSize
    ensures r[..|received|] == received
    ensures forall i :: |received| <= i < |r| ==> r[i] == '\0'
  {
    received + Nuls(BufferSize - |received|)
  }

  function Nuls(n: nat): (r: string)
    ensures |r| == n && forall i :: 0 <= i < n ==> r[i] == '\0'
  {
    if n == 0 then [] else Nuls(n - 1) + ['\0']
  }

  /** `str::lines().next()`: `None` for the empty text; otherwise the text up
      to the first `'\n'`, without a `'\r'` that stands right before it. */
  function FirstLine(s: string): (r: Option<string>)
    ensures r.None? <==> s == []
    ensures r.Some? ==> '\n' !in r.value
    ensures r.Some? ==> |r.value| <= |s| && r.value == s[..|r.value|]
    ensures r.Some? && |r.value| < |s| ==>
      s[|r.value|] == '\n' || (s[|r.value|] == '\r' && |r.value| + 1 < |s| && s[|r.value| + 1] == '\n')
  {
    if s == [] then None
    else
      var e := IndexOf(s, '\n');
      if e < |s| && e > 0 && s[e - 1] == '\r' then Some(s[..e - 1]) else Some(s[..e])
  }

  /** Length of the longest all-whitespace prefix of `s`. */
  function SpaceLength(s: string): (r: nat)
    ensures r <= |s|
    ensures AllWhitespace(s[..r])
    ensures r < |s| ==> !IsWhitespace(s[r])
  {
    if s == [] || !IsWhitespace(s[0]) then 0 else 1 + SpaceLength(s[1..])
  }

  /** Length of the longest whitespace-free prefix of `s`. */
  function WordLength(s: string): (r: nat)
    ensures r <= |s|
    ensures NoWhitespace(s[..r])
    ensures r < |s| ==> IsWhitespace(s[r])
  {
    if s == [] || IsWhitespace(s[0]) then 0 else 1 + WordLength(s[1..])
  }

  /** `str::split_whitespace`: the maximal whitespace-free runs of `s`, in order. */
  function Tokens(s: string): (r: seq<string>)
    ensures forall k :: 0 <= k < |r| ==> r[k] != [] && NoWhitespace(r[k])
    decreases |s|
  {
    var rest := s[SpaceLength(s)..];
    if rest == [] then []
    else
      var w := WordLength(rest);
      [rest[..w]] + Tokens(rest[w..])
  }

  /** The text obtained by writing the separators and the tokens alternately:
      `seps[0] + toks[0] + seps[1] + ... + toks[n-1] + seps[n]`. */
  function Layout(seps: seq<string>, toks: seq<string>): string
    requires |seps| == |toks| + 1
  {
    if toks == [] then seps[0] else seps[0] + toks[0] + Layout(seps[1..], toks[1..])
  }

  /** A layout that splitting on whitespace reads back as `toks`: whitespace
      separators, non-empty between two tokens, and non-empty
      whitespace-free tokens. */
  predicate WellSeparated(seps: seq<string>, toks: seq<string>) {
    |seps| == |toks| + 1
    && (forall i :: 0 <= i < |seps| ==> AllWhitespace(seps[i]))
    && (forall i :: 0 < i < |toks| ==> seps[i] != [])
    && (forall k :: 0 <= k < |toks| ==> toks[k] != [] && NoWhitespace(toks[k]))
  }

  /** The separators `Tokens` skips: the whitespace runs of `s` around its tokens. */
  function Gaps(s: string): (r: seq<string>)
    ensures |r| == |Tokens(s)| + 1
    decreases |s|
  {
    var n := SpaceLength(s);
    var rest := s[n..];
    if rest == [] then [s]
    else
      var w := WordLength(rest);
      [s[..n]] + Gaps(rest[w..])
  }

  /** Whitespace followed by nothing or a non-whitespace character is
      skipped exactly. */
  lemma {:induction false} SpaceLengthOf(lead: string, more: string)
    requires AllWhitespace(lead)
    requires more == [] || !IsWhitespace(more[0])
    ensures SpaceLength(lead + more) == |lead|
  {
    if lead != [] {
      assert (lead + more)[1..] == lead[1..] + more;
      SpaceLengthOf(lead[1..], more);
    } else {
      assert lead + more == more;
    }
  }

  /** A word followed by nothing or whitespace is taken exactly. */
  lemma {:induction false} WordLengthOf(word: string, more: string)
    requires NoWhitespace(word)
    requires more == [] || IsWhitespace(more[0])
    ensures WordLength(word + more) == |word|
  {
    if word != [] {
      assert (word + more)[1..] == word[1..] + more;
      WordLengthOf(word[1..], more);
    } else {
      assert word + more == more;
    }
  }

  /** Taking the tokens of text that starts with whitespace, then a word, then
      either nothing or whitespace yields that word first. */
  lemma {:induction false} TokensCons(lead: string, word: string, more: string)
    requires AllWhitespace(lead)
    requires word != [] && NoWhitespace(word)
    requires more == [] || IsWhitespace(more[0])
    ensures Tokens(lead + word + more) == [word] + Tokens(more)
  {
    var s := lead + word + more;
    assert s == lead + (word + more);
    SpaceLengthOf(lead, word + more);
    var rest := s[|lead|..];
    assert rest == word + more;
    WordLengthOf(word, more);
    assert rest[..|word|] == word;
    assert rest[|word|..] == more;
  }

  /** Dropping the first token and separator of a well-separated layout
      leaves a well-separated layout. */
  lemma {:induction false} WellSeparatedTail(seps: seq<string>, toks: seq<string>)
    requires WellSeparated(seps, toks) && toks != []
    ensures WellSeparated(seps[1..], toks[1..])
  {
    var seps', toks' := seps[1..], toks[1..];
    forall i | 0 <= i < |seps'| ensures AllWhitespace(seps'[i]) {
      assert seps'[i] == seps[i + 1];
    }
    forall i | 0 < i < |toks'| ensures seps'[i] != [] {
      assert seps'[i] == seps[i + 1];
    }
    forall k | 0 <= k < |toks'| ensures toks'[k] != [] && NoWhitespace(toks'[k]) {
      assert toks'[k] == toks[k + 1];
    }
  }

  /** A well-separated layout is empty or starts with whitespace, unless it
      starts with its first token. */
  lemma {:induction false} LayoutStart(seps: seq<string>, toks: seq<string>)
    requires WellSeparated(seps, toks)
    requires seps[0] != [] || toks == []
    ensures Layout(seps, toks) == [] || IsWhitespace(Layout(seps, toks)[0])
  {
    var l := Layout(seps, toks);
    var first := seps[0];
    assert AllWhitespace(first);
    if toks == [] {
      assert l == first;
    } else {
      assert l == first + (toks[0] + Layout(seps[1..], toks[1..]));
    }
    if l != [] {
      assert first != [];
      assert l[0] == first[0];
    }
  }

  /** Splitting a well-separated layout on whitespace gives back its tokens. */
  lemma {:induction false} TokensOfLayout(seps: seq<string>, toks: seq<string>)
    requires WellSeparated(seps, toks)
    ensures Tokens(Layout(seps, toks)) == toks
  {
    if toks == [] {
      assert SpaceLength(seps[0]) == |seps[0]|;
    } else {
      var seps', toks' := seps[1..], toks[1..];
      WellSeparatedTail(seps, toks);
      TokensOfLayout(seps', toks');
      assert seps'[0] != [] || toks' == [] by {
        if toks' != [] {
          assert seps'[0] == seps[1];
        }
      }
      LayoutStart(seps', toks');
      TokensCons(seps[0], toks[0], Layout(seps', toks'));
    }
  }

  /** One step of `Tokens` and `Gaps` together: leading whitespace `s[..n]`,
      a word `s[n..m]`, and what follows it. */
  lemma {:induction false} SplitStep(s: string, n: nat, m: nat)
    requires n == SpaceLength(s) && n < |s|
    requires m == n + WordLength(s[n..])
    ensures n < m <= |s|
    ensures AllWhitespace(s[..n]) && NoWhitespace(s[n..m])
    ensures Tokens(s) == [s[n..m]] + Tokens(s[m..])
    ensures Gaps(s) == [s[..n]] + Gaps(s[m..])
    ensures s[m..] == [] || IsWhitespace(s[m])
  {
    var rest := s[n..];
    var w := WordLength(rest);
    assert rest[..w] == s[n..m];
    assert rest[w..] == s[m..];
  }

  /** After a word, the next gap is non-empty unless nothing follows. */
  lemma {:induction false} GapAfterWord(tail: string)
    requires tail == [] || IsWhitespace(tail[0])
    requires Tokens(tail) != []
    ensures Gaps(tail)[0] != []
  {
    assert tail[SpaceLength(tail)..] != [];
  }

  /** Putting a whitespace run and a word in front of a well-separated
      layout keeps it well separated, provided the old first gap separates
      the new word from the next one. */
  lemma {:induction false} WellSeparatedCons(lead: string, word: string, seps: seq<string>, toks: seq<string>)
    requires WellSeparated(seps, toks)
    requires AllWhitespace(lead) && word != [] && NoWhitespace(word)
    requires toks != [] ==> seps[0] != []
    ensures WellSeparated([lead] + seps, [word] + toks)
  {
    var seps', toks' := [lead] + seps, [word] + toks;
    assert seps'[1..] == seps && toks'[1..] == toks;
    forall i | 0 < i < |toks'| ensures seps'[i] != [] {
      assert seps'[i] == seps[i - 1];
    }
    forall i | 0 <= i < |seps'| ensures AllWhitespace(seps'[i]) {
      if i > 0 {
        assert seps'[i] == seps[i - 1];
      }
    }
    forall k | 0 <= k < |toks'| ensures toks'[k] != [] && NoWhitespace(toks'[k]) {
      if k > 0 {
        assert toks'[k] == toks[k - 1];
      }
    }
  }

  /** Prefixing a separator and a token to a layout of `s[m..]` lays out `s`. */
  lemma {:induction false} LayoutPrefix(s: string, n: nat, m: nat, seps: seq<string>, toks: seq<string>)
    requires n <= m <= |s| && |seps| == |toks| + 1
    requires Layout(seps, toks) == s[m..]
    ensures Layout([s[..n]] + seps, [s[n..m]] + toks) == s
  {
    var seps', toks' := [s[..n]] + seps, [s[n..m]] + toks;
    assert seps'[1..] == seps && toks'[1..] == toks;
    assert s[..n] + s[n..m] + s[m..] == s;
  }

  /** The inductive step of `LayoutOfTokens`: if the text after the first
      word is the well-separated layout of its tokens and gaps, so is the
      whole text. */
  lemma {:induction false} LayoutStep(s: string, n: nat, m: nat)
    requires n == SpaceLength(s) && n < |s|
    requires m == n + WordLength(s[n..])
    requires m <= |s| && WellSeparated(Gaps(s[m..]), Tokens(s[m..]))
    requires Layout(Gaps(s[m..]), Tokens(s[m..])) == s[m..]
    ensures WellSeparated(Gaps(s), Tokens(s))
    ensures Layout(Gaps(s), Tokens(s)) == s
  {
    SplitStep(s, n, m);
    var tail := s[m..];
    if Tokens(tail) != [] {
      GapAfterWord(tail);
    }
    WellSeparatedCons(s[..n], s[n..m], Gaps(tail), Tokens(tail));
    LayoutPrefix(s, n, m, Gaps(tail), Tokens(tail));
  }

  /** Every text is the layout of its own tokens and gaps, and that layout
      is well separated: `Tokens` loses nothing but the whitespace runs. */
  lemma {:induction false} LayoutOfTokens(s: string)
    ensures WellSeparated(Gaps(s), Tokens(s))
    ensures Layout(Gaps(s), Tokens(s)) == s
    decreases |s|
  {
    var n := SpaceLength(s);
    if n == |s| {
      assert s[..n] == s;
    } else {
      var m := n + WordLength(s[n..]);
      LayoutOfTokens(s[m..]);
      LayoutStep(s, n, m);
    }
  }

  /** The target path of `handle_request` (main.rs:10-18): the second
      whitespace-separated token of the first line of the buffer's text, or
      the panic that the missing piece causes. */
  function ParseTarget(read: Option<string>): (r: Result<string, Panic>)
    requires read.Some? ==> |read.value| <= BufferSize
    ensures r.Ok? ==> r.value != [] && NoWhitespace(r.value)
    ensures r.Err? ==> r.error in {ReadFailed, NoTarget}
  {
    match read
    case None => Err(ReadFailed)
    case Some(received) =>
      match FirstLine(BufferText(received))
      case None => Err(NoRequestLine)
      case Some(line) =>
        var toks := Tokens(line);
        if |toks| < 2 then Err(NoTarget) else Ok(toks[1])
  }

  /** The first line of `p + rest`, when `p` holds no line feed and does not
      end in a carriage return, extends `p` with a prefix of `rest`. */
  lemma {:induction false} FirstLineExtends(p: string, rest: string)
    requires '\n' !in p
    requires p != [] && p[|p| - 1] != '\r'
    ensures FirstLine(p + rest).Some?
    ensures var line := FirstLine(p + rest).value;
      |p| <= |line| <= |p + rest| && line[..|p|] == p && (|line| > |p| ==> line[|p|] == rest[0])
  {
    IndexOfAppend(p, rest, '\n');
    var s := p + rest;
    var e := IndexOf(s, '\n');
    if e < |s| && e > 0 && s[e - 1] == '\r' {
      assert e - 1 != |p| - 1;
    }
  }

  /** Text ended by `"\n"` or `"\r\n"` is the whole first line, unless it
      ends in a carriage return of its own. */
  lemma {:induction false} FirstLineEndsAt(p: string, rest: string)
    requires '\n' !in p && (p == [] || p[|p| - 1] != '\r')
    requires (|rest| >= 1 && rest[0] == '\n') || (|rest| >= 2 && rest[0] == '\r' && rest[1] == '\n')
    ensures FirstLine(p + rest) == Some(p)
  {
    if rest[0] == '\n' {
      IndexOfAppend(p, rest, '\n');
      assert (p + rest)[..|p|] == p;
    } else {
      assert '\n' !in p + ['\r'];
      assert p + rest == (p + ['\r']) + rest[1..];
      IndexOfAppend(p + ['\r'], rest[1..], '\n');
      assert (p + rest)[..|p|] == p;
    }
  }

  /** Text without a line feed is its own first line, unless it is empty. */
  lemma {:induction false} FirstLineWhole(s: string)
    requires s != [] && '\n' !in s
    ensures FirstLine(s) == Some(s)
  {
    assert IndexOf(s, '\n') == |s|;
    assert s[..|s|] == s;
  }

  /** A whitespace-free string holds no line feed and no carriage return. */
  lemma {:induction false} WordHasNoBreak(w: string)
    requires NoWhitespace(w)
    ensures '\n' !in w && '\r' !in w
  {
    assert IsWhitespace('\n') && IsWhitespace('\r');
  }

  /** The target is the second token of a well-formed request line: after
      optional leading blanks comes the method, then blanks, then the
      target, then whitespace of any kind (main.rs:14-18). */
  lemma {:induction false} TargetOfRequestLine(received: string, lead: string, verb: string, sep: string, target: string, tail: string)
    requires received == lead + verb + sep + target + tail && |received| <= BufferSize
    requires AllWhitespace(lead) && '\n' !in lead
    requires sep != [] && AllWhitespace(sep) && '\n' !in sep
    requires verb != [] && NoWhitespace(verb)
    requires target != [] && NoWhitespace(target)
    requires tail != [] && IsWhitespace(tail[0])
    ensures ParseTarget(Some(received)) == Ok(target)
  {
    var p := lead + verb + sep + target;
    var text := BufferText(received);
    WordHasNoBreak(verb);
    WordHasNoBreak(target);
    assert '\n' !in p;
    assert text == p + (tail + Nuls(BufferSize - |received|));
    FirstLineExtends(p, tail + Nuls(BufferSize - |received|));
    var line := FirstLine(text).value;
    var x := line[|p|..];
    assert line == lead + verb + (sep + target + x);
    assert x == [] || IsWhitespace(x[0]);
    TokensCons(sep, target, x);
    TokensCons(lead, verb, sep + target + x);
  }

  /** A NUL character is not whitespace, so the zero bytes after a target
      that ends the read become part of it. */
  lemma {:induction false} UnterminatedTarget(received: string, lead: string, verb: string, sep: string, target: string)
    requires received == lead + verb + sep + target && |received| <= BufferSize
    requires AllWhitespace(lead) && '\n' !in lead
    requires sep != [] && AllWhitespace(sep) && '\n' !in sep
    requires verb != [] && NoWhitespace(verb)
    requires target != [] && NoWhitespace(target)
    ensures ParseTarget(Some(received)) == Ok(target + Nuls(BufferSize - |received|))
  {
    var pad := Nuls(BufferSize - |received|);
    var text := BufferText(received);
    WordHasNoBreak(verb);
    WordHasNoBreak(target);
    var p := lead + verb + sep + target;
    assert '\n' !in p;
    assert '\n' !in pad;
    assert text == p + pad;
    assert '\n' !in text;
    FirstLineWhole(text);
    assert NoWhitespace(target + pad);
    assert text == lead + verb + (sep + (target + pad) + []);
    TokensCons(sep, target + pad, []);
    TokensCons(lead, verb, sep + (target + pad) + []);
  }

  /** A first line that holds only the method has no target: the
      `.unwrap()` at main.rs:18 panics instead of producing a response. */
  lemma {:induction false} MissingTarget(received: string, lead: string, verb: string, tail: string)
    requires received == lead + verb + tail && |received| <= BufferSize
    requires AllWhitespace(lead) && '\n' !in lead
    requires verb != [] && NoWhitespace(verb)
    requires (|tail| >= 1 && tail[0] == '\n') || (|tail| >= 2 && tail[0] == '\r' && tail[1] == '\n')
    ensures ParseTarget(Some(received)) == Err(NoTarget)
  {
    var text := BufferText(received);
    WordHasNoBreak(verb);
    assert text == (lead + verb) + (tail + Nuls(BufferSize - |received|));
    FirstLineEndsAt(lead + verb, tail + Nuls(BufferSize - |received|));
    TokensCons(lead, verb, []);
    assert lead + verb + [] == lead + verb;
  }

  /** The buffer's text is never empty, so `lines().next()` at main.rs:17
      always finds a line and the request-line panic cannot happen. */
  lemma {:induction false} FirstLineAlwaysPresent(received: string)
    requires |received| <= BufferSize
    ensures FirstLine(BufferText(received)).Some?
    ensures ParseTarget(Some(received)) != Err(NoRequestLine)
  {
  }
}
