/** Include files of ASP pages: finding the directives, splicing the files in, and mapping lines back. */
module IncludeFiles {
  import opened CStrings
  import opened Options

  const COMMENT_BEGIN: string := "<!--"
  const COMMENT_END: string := "-->"
  const INC_INCLUDE: string := "#include"
  const INC_FILE: string := "file"
  const INC_VIRTUAL: string := "virtual"
  const MAX_INCLUDE_FILES: nat := 16
  const MAX_PATH: nat := 260

  /** INCLUDE_INFO: the directive is page[start..end]. */
  datatype Include = Include(name: string, start: nat, end: nat, contents: string, startLine: int, lines: nat)

  datatype FindError =
    | NoError | MultipleIncLine | MaxInclude | BadInclude | NoVirtualDir | FileOpen | CommentUnterminated

  /** What the file system says to a name, which is relative to the page or to the web server. */
  datatype Lookup = Found(contents: string) | NoPath | CannotOpen

  // ---------- Lines ----------

  /** How many lines end in s; the code counts carriage returns. */
  function LineEnds(s: string): nat {
    if s == [] then 0 else (if s[0] == '\r' then 1 else 0) + LineEnds(s[1..])
  }

  lemma {:induction false} LineEndsAppend(a: string, b: string)
    ensures LineEnds(a + b) == LineEnds(a) + LineEnds(b)
  {
    if a == [] {
      assert a + b == b;
    } else {
      assert (a + b)[1..] == a[1..] + b;
      LineEndsAppend(a[1..], b);
    }
  }

  lemma {:induction false} LineEndsCounted(s: string)
    ensures LineEnds(s) == multiset(s)['\r']
  {
    if s != [] {
      LineEndsCounted(s[1..]);
      assert s == [s[0]] + s[1..];
    }
  }

  /** The line that `end` is on, counted from the one `start` is on. */
  method GetLineNumber(page: string, start: nat, end: nat) returns (line: nat)
    requires start <= end <= |page|
    ensures line == 1 + LineEnds(Part(page, start, end))
  {
    hide Part;
    line := 1;
    var trav := start;
    while trav < end
      invariant start <= trav <= end && line + LineEnds(Part(page, trav, end)) == 1 + LineEnds(Part(page, start, end))
    {
      RestOfPart(page, trav, end, 1);
      if page[trav] == '\r' {
        line := line + 1;
      }
      trav := trav + 1;
    }
  }

  // ---------- Finding the directives ----------

  predicate WordAt(s: string, i: nat, word: string) {
    i + |word| <= |s| && s[i..i + |word|] == word
  }

  /** strstr: where the word is first found from position i on, or |s|; a NUL ends the search. */
  function FindWord(s: string, i: nat, word: string): (j: nat)
    requires i <= |s| && word != []
    ensures i <= j <= |s| && (j < |s| ==> WordAt(s, j, word))
    decreases |s| - i
  {
    if i == |s| || s[i] == '\0' then |s|
    else if WordAt(s, i, word) then i
    else FindWord(s, i + 1, word)
  }

  /** The search does not see what is behind a NUL. */
  predicate NoneUpTo(page: string, p: nat) {
    p <= |page| && forall k :: 0 <= k < p ==> page[k] != '\0'
  }

  /** From i to j there is neither a NUL nor the word. */
  predicate Clear(s: string, i: nat, j: nat, word: string) {
    j <= |s| && forall k: nat :: i <= k < j ==> s[k] != '\0' && !WordAt(s, k, word)
  }

  /** It is the first place of the word, in front of any NUL; and if it is |s|, there is no such place. */
  lemma {:induction false} FindWordExactly(s: string, i: nat, word: string)
    requires i <= |s| && word != [] && word[0] != '\0'
    ensures var j := FindWord(s, i, word);
      && (j < |s| ==> Clear(s, i, j, word))
      && (j == |s| ==> forall k: nat :: i <= k && NoneUpTo(s, k) ==> !WordAt(s, k, word))
    decreases |s| - i
  {
    hide WordAt;
    WordFits(s, i, word);
    if i < |s| && s[i] != '\0' && !WordAt(s, i, word) {
      FindWordExactly(s, i + 1, word);
    }
  }

  lemma WordFits(s: string, i: nat, word: string)
    requires word != []
    ensures WordAt(s, i, word) ==> i + |word| <= |s| && s[i] == word[0]
  {
    if WordAt(s, i, word) {
      assert s[i..i + |word|][0] == s[i];
    }
  }

  function SkipFrom(s: string, i: nat): (j: nat)
    requires i <= |s|
    ensures i <= j <= |s| && (forall k :: i <= k < j ==> IsSpace(s[k])) && (j < |s| ==> !IsSpace(s[j]))
    decreases |s| - i
  {
    if i < |s| && IsSpace(s[i]) then SkipFrom(s, i + 1) else i
  }

  /** An include directive begins at p. */
  predicate IncludeAt(page: string, p: nat) {
    WordAt(page, p, "<!--") && StartsNoCase(page[SkipFrom(page, p + 4)..], "#include")
  }

  /** A script block begins on the line that `end` is on. */
  predicate ScriptOnLine(page: string, end: nat)
    requires end <= |page|
  {
    var b := FindWord(page, end, "<%");
    b < |page| && LineEnds(Part(page, end, b)) == 0
  }

  predicate DirectiveOk(page: string, inc: Include) {
    && inc.start < inc.end <= |page| && IncludeAt(page, inc.start)
    && inc.end >= inc.start + 7 && WordAt(page, inc.end - 3, "-->")
    && !ScriptOnLine(page, inc.end)
  }

  /** Two directives in a row: in order, and the second not on the first one's last line. */
  predicate InOrder(page: string, a: Include, b: Include) {
    && a.end <= b.start && b.start + |COMMENT_BEGIN| <= |page|
    && LineEnds(Part(page, a.end, SkipFrom(page, b.start + |COMMENT_BEGIN|))) > 0
  }

  /** The directives found are as the checks demand. */
  predicate LayoutOk(page: string, incs: seq<Include>) {
    && |incs| <= 16
    && (forall i :: 0 <= i < |incs| ==> DirectiveOk(page, incs[i]))
    && (forall i :: 0 < i < |incs| ==> InOrder(page, incs[i - 1], incs[i]))
  }

  predicate Covered(incs: seq<Include>, p: nat) {
    exists i :: 0 <= i < |incs| && incs[i].start <= p < incs[i].end
  }

  predicate IsQuote(c: char) {
    c == '\"' || c == '\''
  }

  /** From `from` on there is "file" or "virtual" and "=", and q is where a quote has to be. */
  predicate OpensAt(page: string, from: nat, virtual: bool, q: nat) {
    from <= |page| &&
    var w := SkipFrom(page, from);
    var word := if virtual then "virtual" else "file";
    StartsNoCase(page[w..], word) &&
    var e := SkipFrom(page, w + |word|);
    e < |page| && page[e] == '=' && q == SkipFrom(page, e + 1)
  }

  /** Behind that there is a name in quotes, which is page[start..end]. */
  predicate NameAt(page: string, from: nat, virtual: bool, start: nat, end: nat) {
    && 0 < start <= end < |page| && OpensAt(page, from, virtual, start - 1)
    && IsQuote(page[start - 1]) && IsQuote(page[end])
    && forall k :: start <= k < end ==> !IsQuote(page[k]) && page[k] != '\0'
  }

  /** e is behind the first end of a comment from `from` on. */
  predicate ClosesAt(page: string, from: nat, e: nat) {
    from + 3 <= e <= |page| && page[e - 3..e] == "-->" && Clear(page, from, e - 3, "-->")
  }

  /**
    The directive at inc.start reaches to the first end of a comment behind the beginning of its name, and
    the contents are what there is under that name, for the kind of name it is.
  */
  ghost predicate FromFile(page: string, files: (bool, string) -> Lookup, inc: Include) {
    inc.start + 4 <= |page| &&
    exists virtual: bool, start: nat, end: nat ::
      && NameAt(page, SkipFrom(page, inc.start + 4) + |INC_INCLUDE|, virtual, start, end)
      && end - start < 260 && inc.name == page[start..end]
      && files(virtual, inc.name) == Found(inc.contents)
      && ClosesAt(page, start, inc.end)
  }

  ghost predicate HasName(page: string, from: nat) {
    exists virtual: bool, start: nat, end: nat :: NameAt(page, from, virtual, start, end)
  }

  method ReadOpening(page: string, from: nat) returns (ok: bool, virtual: bool, q: nat)
    requires from <= |page|
    ensures from <= q <= |page| && (ok ==> OpensAt(page, from, virtual, q))
    ensures !ok ==> forall v: bool, p: nat :: !OpensAt(page, from, v, p)
  {
    hide StartsNoCase;
    q := SkipFrom(page, from);
    virtual := false;
    KeywordFits(page, q);
    if StartsNoCase(page[q..], INC_FILE) {
      NotBoth(page[q..]);
      q := q + |INC_FILE|;
    } else if StartsNoCase(page[q..], INC_VIRTUAL) {
      q, virtual := q + |INC_VIRTUAL|, true;
    } else {
      return false, virtual, q;
    }
    q := SkipFrom(page, q);
    if q == |page| || page[q] != '=' {
      return false, virtual, q;
    }
    return true, virtual, SkipFrom(page, q + 1);
  }

  lemma KeywordFits(page: string, q: nat)
    requires q <= |page|
    ensures StartsNoCase(page[q..], INC_FILE) ==> q + |INC_FILE| <= |page|
    ensures StartsNoCase(page[q..], INC_VIRTUAL) ==> q + |INC_VIRTUAL| <= |page|
  {
  }

  lemma NotBoth(s: string)
    requires StartsNoCase(s, INC_FILE)
    ensures !StartsNoCase(s, INC_VIRTUAL)
  {
    assert ToLower(INC_FILE[0]) != ToLower(INC_VIRTUAL[0]);
  }

  lemma OneOpening(page: string, from: nat, v: bool, p: nat, w: bool, q: nat)
    requires OpensAt(page, from, v, p) && OpensAt(page, from, w, q)
    ensures v == w && p == q
  {
    var s := page[SkipFrom(page, from)..];
    assert ToLower(INC_FILE[0]) == 'f' && ToLower(INC_VIRTUAL[0]) == 'v';
    assert ToLower(s[0]) == if v then 'v' else 'f';
    assert ToLower(s[0]) == if w then 'v' else 'f';
  }

  /** The name in a directive, from behind "#include" on; it is found exactly if there is one. */
  method ReadName(page: string, from: nat) returns (ok: bool, virtual: bool, start: nat, end: nat)
    requires from <= |page|
    ensures from <= start <= end <= |page|
    ensures ok <==> HasName(page, from)
    ensures ok ==> NameAt(page, from, virtual, start, end)
  {
    hide OpensAt;
    var trav;
    ok, virtual, trav := ReadOpening(page, from);
    if !ok || trav == |page| || !IsQuote(page[trav]) {
      if ok {
        OnlyName(page, from, virtual, trav);
      }
      return false, virtual, trav, trav;
    }
    OnlyName(page, from, virtual, trav);
    start, end := trav + 1, trav + 1;
    while end < |page| && page[end] != '\0'
      invariant start <= end <= |page|
      invariant forall k :: start <= k < end ==> !IsQuote(page[k]) && page[k] != '\0'
    {
      if IsQuote(page[end]) {
        assert NameAt(page, from, virtual, start, end);
        return true, virtual, start, end;
      }
      end := end + 1;
    }
    ok := false;
  }

  /** A directive as an author writes it: the keyword, an equals sign, and the name between quotes of either kind. */
  lemma WrittenName(front: string, pads: (string, string, string), virtual: bool, open: char, name: string,
      close: char, behind: string)
    requires AllSpace(pads.0) && AllSpace(pads.1) && AllSpace(pads.2)
    requires open as int in {34, 39} && close as int in {34, 39}
    requires forall c :: c in name ==> c as int !in {0, 34, 39}
    ensures var word := if virtual then "virtual" else "file";
      var q := front + (pads.0 + (word + (pads.1 + (['='] + pads.2))));
      NameAt(q + ([open] + (name + ([close] + behind))), |front|, virtual, |q| + 1, |q| + 1 + |name|)
  {
    hide OpensAt, AllSpace;
    var word := if virtual then "virtual" else "file";
    var q := front + (pads.0 + (word + (pads.1 + (['='] + pads.2))));
    var tail := [open] + (name + ([close] + behind));
    var page := q + tail;
    WrittenOpening(front, pads.0, virtual, pads.1, pads.2, tail);
    assert page == front + (pads.0 + (word + (pads.1 + (['='] + (pads.2 + tail)))));
    assert page[|q|] == open && page[|q| + 1 + |name|] == close;
    forall k | |q| + 1 <= k < |q| + 1 + |name| ensures !IsQuote(page[k]) && page[k] != '\0' {
      assert page[k] == name[k - |q| - 1] && page[k] in name;
      QuoteByCode(page[k]);
    }
    QuoteByCode(open);
    QuoteByCode(close);
  }

  lemma QuoteByCode(c: char)
    ensures IsQuote(c) <==> c as int in {34, 39}
  {
  }

  lemma WrittenOpening(front: string, p: string, virtual: bool, p': string, p'': string, tail: string)
    requires AllSpace(p) && AllSpace(p') && AllSpace(p'') && tail != "" && !IsSpace(tail[0])
    ensures var word := if virtual then "virtual" else "file";
      var page := front + (p + (word + (p' + (['='] + (p'' + tail)))));
      OpensAt(page, |front|, virtual, |page| - |tail|)
  {
    hide AllSpace, IsSpace, StartsNoCase, OpensAt, SkipFrom;
    var word := if virtual then "virtual" else "file";
    var t3 := ['='] + (p'' + tail);
    var page := front + (p + (word + (p' + t3)));
    WordIsSolid(virtual);
    SkipBehind(front, p, word + (p' + t3));
    WordBehind(front + p, word, p' + t3);
    Regroup(front, p, word + (p' + t3));
    EqualsIsSolid();
    SkipBehind(front + p + word, p', t3);
    Regroup(front + p, word, p' + t3);
    ToTheEnd(front + p + word, p', p'', tail);
    Opens(page, |front|, virtual, |front| + |p|, |front + p + word| + |p'|, |page| - |tail|);
  }

  lemma Opens(page: string, from: nat, virtual: bool, w: nat, e: nat, q: nat)
    requires var word := if virtual then "virtual" else "file";
      from <= |page| && w == SkipFrom(page, from) && StartsNoCase(page[w..], word) && w + |word| <= |page|
      && e == SkipFrom(page, w + |word|) && e < |page| && page[e] == '=' && q == SkipFrom(page, e + 1)
    ensures OpensAt(page, from, virtual, q)
  {
    hide StartsNoCase;
  }

  lemma WordIsSolid(virtual: bool)
    ensures var word := if virtual then "virtual" else "file"; !IsSpace(word[0])
  {
  }

  lemma EqualsIsSolid()
    ensures !IsSpace('=')
  {
  }

  lemma WordBehind(front: string, word: string, tail: string)
    ensures StartsNoCase((front + (word + tail))[|front|..], word)
  {
    assert (front + (word + tail))[|front|..] == word + tail;
    StartsInFront(word, tail, word);
  }

  lemma ToTheEnd(front: string, p: string, p': string, tail: string)
    requires AllSpace(p') && tail != "" && !IsSpace(tail[0])
    ensures var page := front + (p + (['='] + (p' + tail)));
      page[|front| + |p|] == '=' && SkipFrom(page, |front| + |p| + 1) == |page| - |tail|
  {
    hide AllSpace, IsSpace;
    SkipBehind(front + p + ['='], p', tail);
    Regroup(front + p, ['='], p' + tail);
    Regroup(front, p, ['='] + (p' + tail));
  }

  lemma SkipBehind(front: string, pad: string, tail: string)
    requires AllSpace(pad) && tail != "" && !IsSpace(tail[0])
    ensures SkipFrom(front + (pad + tail), |front|) == |front| + |pad|
  {
    hide IsSpace;
    var page := front + (pad + tail);
    assert forall k :: |front| <= k < |front| + |pad| ==> page[k] == pad[k - |front|] && pad[k - |front|] in pad;
    assert page[|front| + |pad|] == tail[0];
    SkipsTo(page, |front|, |front| + |pad|);
  }

  lemma {:induction false} SkipsTo(s: string, i: nat, n: nat)
    requires i <= n < |s| && (forall k :: i <= k < n ==> IsSpace(s[k])) && !IsSpace(s[n])
    ensures SkipFrom(s, i) == n
    decreases n - i
  {
    hide IsSpace;
    if i < n {
      SkipsTo(s, i + 1, n);
    }
  }

  /** All names there start behind the same place. */
  lemma OnlyName(page: string, from: nat, virtual: bool, q: nat)
    requires OpensAt(page, from, virtual, q)
    ensures forall v: bool, start: nat, end: nat :: NameAt(page, from, v, start, end) ==> v == virtual && start == q + 1
  {
    hide OpensAt;
    forall v: bool, start: nat, end: nat | NameAt(page, from, v, start, end) ensures v == virtual && start == q + 1 {
      OneOpening(page, from, v, start - 1, virtual, q);
    }
  }

  /** What is wrong with the directive whose "#include" is at trav. */
  ghost predicate Refused(page: string, trav: nat, files: (bool, string) -> Lookup, error: FindError) {
    var from := trav + |INC_INCLUDE|;
    if !HasName(page, from) then error == BadInclude
    else exists virtual: bool, start: nat, end: nat ::
      NameAt(page, from, virtual, start, end) && RefusedName(page, virtual, start, end, files, error)
  }

  /**
    Of a name that is too long, or of no file; of a comment that does not end, or has a script block
    behind it on its line.
  */
  predicate RefusedName(page: string, virtual: bool, start: nat, end: nat, files: (bool, string) -> Lookup,
      error: FindError)
    requires start <= end <= |page|
  {
    if end - start > 259 then error == FileOpen
    else
      match files(virtual, page[start..end])
      case NoPath => error == if virtual then NoVirtualDir else BadInclude
      case CannotOpen => error == FileOpen
      case Found(_) =>
        var close := FindWord(page, start, COMMENT_END);
        if close == |page| then error == CommentUnterminated
        else error == MultipleIncLine && ScriptOnLine(page, close + |COMMENT_END|)
  }

  /** One include directive, which begins at `begin`; `trav` is where its "#include" is. */
  method ReadDirective(page: string, begin: nat, trav: nat, files: (bool, string) -> Lookup)
    returns (error: FindError, inc: Include)
    requires IncludeAt(page, begin) && trav == SkipFrom(page, begin + |COMMENT_BEGIN|)
    ensures error == NoError ==>
      && DirectiveOk(page, inc) && inc.start == begin && inc.lines == 1
      && FromFile(page, files, inc)
    ensures error != NoError ==> Refused(page, trav, files, error)
  {
    hide NameAt, HasName, StartsNoCase, DirectiveOk, FromFile, Part, WordAt, FindWord;
    FitsBehind(page, trav);
    inc := Include("", begin, begin, "", 0, 1);
    var ok, virtual, start, end := ReadName(page, trav + |INC_INCLUDE|);
    if !ok {
      return BadInclude, inc;
    }
    if end - start > MAX_PATH - 1 {
      return FileOpen, inc;
    }
    var name := page[start..end];
    match files(virtual, name) {
      case NoPath => return if virtual then NoVirtualDir else BadInclude, inc;
      case CannotOpen => return FileOpen, inc;
      case Found(contents) =>
        var close := FindWord(page, start, COMMENT_END);
        if close == |page| {
          return CommentUnterminated, inc;
        }
        WordFits(page, close, COMMENT_END);
        var behind := close + |COMMENT_END|;
        var script := FindWord(page, behind, "<%");
        if script < |page| {
          var line := GetLineNumber(page, behind, script);
          if line == 1 {
            return MultipleIncLine, inc;
          }
        }
        inc := Include(name, begin, behind, contents, 0, 1);
        DirectiveRead(page, files, inc, virtual, start, end);
        return NoError, inc;
    }
  }

  lemma DirectiveRead(page: string, files: (bool, string) -> Lookup, inc: Include, virtual: bool, start: nat, end: nat)
    requires IncludeAt(page, inc.start) && inc.end <= |page|
    requires NameAt(page, SkipFrom(page, inc.start + 4) + |INC_INCLUDE|, virtual, start, end)
    requires inc.name == page[start..end] && end - start < 260 && files(virtual, inc.name) == Found(inc.contents)
    requires inc.end == FindWord(page, start, COMMENT_END) + 3 && !ScriptOnLine(page, inc.end)
    ensures DirectiveOk(page, inc) && FromFile(page, files, inc)
  {
    hide StartsNoCase, ScriptOnLine, NameAt, FindWord, WordAt, IncludeAt;
    CommentStarts(page, inc.start);
    NameBehind(page, SkipFrom(page, inc.start + 4) + |INC_INCLUDE|, virtual, start, end);
    FirstClose(page, start, inc.end);
  }

  lemma CommentStarts(page: string, begin: nat)
    requires IncludeAt(page, begin)
    ensures begin + 4 <= |page|
  {
    hide StartsNoCase;
  }

  lemma FirstClose(page: string, from: nat, e: nat)
    requires from <= e - 3 < |page| && e - 3 == FindWord(page, from, COMMENT_END)
    ensures ClosesAt(page, from, e) && WordAt(page, e - 3, COMMENT_END)
  {
    FindWordExactly(page, from, COMMENT_END);
    hide FindWord, Clear;
  }

  lemma NameBehind(page: string, from: nat, virtual: bool, start: nat, end: nat)
    requires NameAt(page, from, virtual, start, end)
    ensures from <= start <= end < |page|
  {
    hide StartsNoCase;
  }

  lemma FitsBehind(page: string, trav: nat)
    requires trav <= |page| && StartsNoCase(page[trav..], INC_INCLUDE)
    ensures trav + |INC_INCLUDE| <= |page|
  {
  }

  /** What stops the search at the comment at `begin`, when `incs` have been found before. */
  ghost predicate StopsAt(page: string, files: (bool, string) -> Lookup, incs: seq<Include>, begin: nat,
      error: FindError)
  {
    IncludeAt(page, begin) && FoundUpTo(page, files, incs, begin) &&
    var trav := SkipFrom(page, begin + |COMMENT_BEGIN|);
    if incs != [] && incs[|incs| - 1].end <= trav && LineEnds(Part(page, incs[|incs| - 1].end, trav)) == 0 then
      error == MultipleIncLine
    else if |incs| == 16 then error == MaxInclude
    else Refused(page, trav, files, error)
  }

  /** What the search has found up to `trav`. */
  ghost predicate FoundUpTo(page: string, files: (bool, string) -> Lookup, incs: seq<Include>, trav: nat) {
    && LayoutOk(page, incs) && (incs != [] ==> incs[|incs| - 1].end <= trav)
    && (forall p: nat :: p < trav && IncludeAt(page, p) && NoneUpTo(page, p) ==> Covered(incs, p))
    && (forall i :: 0 <= i < |incs| ==> FromFile(page, files, incs[i]))
  }

  /** A comment at `begin`: if it is an include directive, it is added. */
  method CheckComment(page: string, files: (bool, string) -> Lookup, incs: seq<Include>, begin: nat)
    returns (error: FindError, incs': seq<Include>, next: nat)
    requires WordAt(page, begin, COMMENT_BEGIN) && FoundUpTo(page, files, incs, begin)
    ensures begin < next <= |page| && (error == NoError ==> FoundUpTo(page, files, incs', next))
    ensures error != NoError ==> incs' == incs && StopsAt(page, files, incs, begin, error)
  {
    hide DirectiveOk, Part, StartsNoCase, WordAt, FoundUpTo, Refused, FromFile, LayoutOk, LineEnds;
    incs', next := incs, begin + |COMMENT_BEGIN|;
    WordFits(page, begin, COMMENT_BEGIN);
    var trav := SkipFrom(page, next);
    if !StartsNoCase(page[trav..], INC_INCLUDE) {
      next := trav;
      NoDirective(page, files, incs, begin);
      return NoError, incs', next;
    }
    LastEnds(page, files, incs, begin);
    if incs != [] {
      var line := GetLineNumber(page, incs[|incs| - 1].end, trav);
      if line == 1 {
        return MultipleIncLine, incs', next;
      }
    }
    if |incs| == MAX_INCLUDE_FILES {
      return MaxInclude, incs', next;
    }
    var inc;
    error, inc := ReadDirective(page, begin, trav, files);
    if error == NoError {
      DirectiveEnds(page, inc);
      assert incs != [] ==> InOrder(page, incs[|incs| - 1], inc);
      OneMore(page, files, incs, inc);
      incs', next := incs + [inc], inc.end;
    }
  }

  lemma LastEnds(page: string, files: (bool, string) -> Lookup, incs: seq<Include>, begin: nat)
    requires FoundUpTo(page, files, incs, begin)
    ensures |incs| <= MAX_INCLUDE_FILES && (incs != [] ==> incs[|incs| - 1].end <= begin)
  {
  }

  lemma DirectiveEnds(page: string, inc: Include)
    requires DirectiveOk(page, inc)
    ensures inc.start < inc.end <= |page|
  {
  }

  lemma NoDirective(page: string, files: (bool, string) -> Lookup, incs: seq<Include>, begin: nat)
    requires FoundUpTo(page, files, incs, begin) && WordAt(page, begin, COMMENT_BEGIN) && !IncludeAt(page, begin)
    ensures FoundUpTo(page, files, incs, SkipFrom(page, begin + |COMMENT_BEGIN|))
  {
    hide StartsNoCase, WordAt, LayoutOk;
    forall p | begin < p < SkipFrom(page, begin + |COMMENT_BEGIN|) ensures !IncludeAt(page, p) {
      NoneInside(page, begin, p);
    }
  }

  /** Behind a comment's first character, up to the end of its white space, no other comment begins. */
  lemma NoneInside(page: string, begin: nat, p: nat)
    requires WordAt(page, begin, COMMENT_BEGIN) && begin < p < SkipFrom(page, begin + |COMMENT_BEGIN|)
    ensures !WordAt(page, p, COMMENT_BEGIN)
  {
    var w := page[begin..begin + 4];
    assert page[begin + 1] == w[1] && page[begin + 2] == w[2] && page[begin + 3] == w[3];
    if p + 4 <= |page| {
      assert page[p..p + 4][0] == page[p] && page[p] != '<';
    }
  }

  lemma OneMore(page: string, files: (bool, string) -> Lookup, incs: seq<Include>, inc: Include)
    requires FoundUpTo(page, files, incs, inc.start) && |incs| < MAX_INCLUDE_FILES
    requires DirectiveOk(page, inc) && FromFile(page, files, inc)
    requires incs != [] ==> InOrder(page, incs[|incs| - 1], inc)
    ensures FoundUpTo(page, files, incs + [inc], inc.end)
  {
    hide LayoutOk, IncludeAt, DirectiveOk, FromFile, InOrder, Covered;
    LayoutMore(page, incs, inc);
    forall p: nat | p < inc.end && (Covered(incs, p) || p >= inc.start) ensures Covered(incs + [inc], p) {
      CoverMore(incs, inc, p);
    }
  }

  lemma LayoutMore(page: string, incs: seq<Include>, inc: Include)
    requires LayoutOk(page, incs) && |incs| < MAX_INCLUDE_FILES && DirectiveOk(page, inc)
    requires incs != [] ==> InOrder(page, incs[|incs| - 1], inc)
    ensures LayoutOk(page, incs + [inc])
  {
    hide DirectiveOk, InOrder;
    var r := incs + [inc];
    assert forall i :: 0 <= i < |incs| ==> r[i] == incs[i];
  }

  lemma CoverMore(incs: seq<Include>, inc: Include, p: nat)
    requires Covered(incs, p) || inc.start <= p < inc.end
    ensures Covered(incs + [inc], p)
  {
    var r := incs + [inc];
    if Covered(incs, p) {
      var i :| 0 <= i < |incs| && incs[i].start <= p < incs[i].end;
      assert r[i] == incs[i];
    } else {
      assert r[|incs|] == inc;
    }
  }

  /** Finds all include directives of a page; what it finds is laid out as the line map needs it. */
  method FindIncludeFiles(page: string, files: (bool, string) -> Lookup) returns (error: FindError, incs: seq<Include>)
    ensures error == NoError ==> FoundUpTo(page, files, incs, |page|)
    ensures error != NoError ==> exists begin: nat :: StopsAt(page, files, incs, begin, error)
  {
    hide LayoutOk, StartsNoCase, FromFile, StopsAt;
    incs := [];
    NothingFound(page, files);
    var trav := FindWord(page, 0, COMMENT_BEGIN);
    GoOn(page, files, incs, 0, trav);
    while trav < |page|
      invariant trav <= |page| && FoundUpTo(page, files, incs, trav)
      invariant trav < |page| ==> WordAt(page, trav, COMMENT_BEGIN)
      decreases |page| - trav
    {
      error, incs, trav := CheckComment(page, files, incs, trav);
      if error != NoError {
        return;
      }
      var next := FindWord(page, trav, COMMENT_BEGIN);
      GoOn(page, files, incs, trav, next);
      trav := next;
    }
    error := NoError;
  }

  lemma NothingFound(page: string, files: (bool, string) -> Lookup)
    ensures FoundUpTo(page, files, [], 0)
  {
  }

  lemma GoOn(page: string, files: (bool, string) -> Lookup, incs: seq<Include>, trav: nat, next: nat)
    requires trav <= |page| && FoundUpTo(page, files, incs, trav) && next == FindWord(page, trav, COMMENT_BEGIN)
    ensures FoundUpTo(page, files, incs, next)
  {
    hide LayoutOk, StartsNoCase, FromFile, WordAt, Covered, FindWord;
    FindWordExactly(page, trav, COMMENT_BEGIN);
    forall p: nat | trav <= p < next && NoneUpTo(page, p) ensures !IncludeAt(page, p) {
      assert !WordAt(page, p, COMMENT_BEGIN);
    }
  }

  /** The same directive, and the same file for it. */
  predicate SameInclude(a: Include, b: Include) {
    a.start == b.start && a.end == b.end && a.name == b.name && a.contents == b.contents
  }

  /** What a page includes is determined by the page: two searches find the same. */
  lemma {:induction false} OneSetOfIncludes(page: string, files: (bool, string) -> Lookup, a: seq<Include>,
      b: seq<Include>, n: nat)
    requires NoNul(page) && n <= |a|
    requires FoundUpTo(page, files, a, |page|) && FoundUpTo(page, files, b, |page|)
    ensures n <= |b| && forall i :: 0 <= i < n ==> SameInclude(a[i], b[i])
  {
    hide FoundUpTo;
    if n > 0 {
      OneSetOfIncludes(page, files, a, b, n - 1);
      SomeNext(page, files, a, b, n - 1);
      NextNotLater(page, files, a, b, n - 1);
      NextNotLater(page, files, b, a, n - 1);
      SameEnd(page, files, a, b, n - 1);
    }
  }

  /** Behind the first i directives of b there is one more, if there is in a. */
  lemma SomeNext(page: string, files: (bool, string) -> Lookup, a: seq<Include>, b: seq<Include>, i: nat)
    requires NoNul(page) && i < |a| && i <= |b|
    requires FoundUpTo(page, files, a, |page|) && FoundUpTo(page, files, b, |page|)
    requires forall k :: 0 <= k < i ==> SameInclude(a[k], b[k])
    ensures i < |b|
  {
    hide LayoutOk, Covered, FromFile;
    var k := Coverer(page, files, a, b, i);
    if k < i {
      OrderedThrough(page, a, k, i);
    }
  }

  /** The directive of b that the one at a[i] lies in. */
  lemma Coverer(page: string, files: (bool, string) -> Lookup, a: seq<Include>, b: seq<Include>, i: nat)
    returns (k: nat)
    requires NoNul(page) && i < |a|
    requires FoundUpTo(page, files, a, |page|) && FoundUpTo(page, files, b, |page|)
    ensures k < |b| && b[k].start <= a[i].start < b[k].end
  {
    hide IncludeAt, ScriptOnLine, FromFile, InOrder;
    assert DirectiveOk(page, a[i]);
    assert Covered(b, a[i].start);
    k :| 0 <= k < |b| && b[k].start <= a[i].start < b[k].end;
  }

  lemma {:induction false} OrderedThrough(page: string, a: seq<Include>, k: nat, i: nat)
    requires LayoutOk(page, a) && k <= i < |a|
    ensures a[k].start <= a[i].start && (k < i ==> a[k].end <= a[i].start)
  {
    hide IncludeAt, ScriptOnLine, WordAt;
    if k < i {
      OrderedThrough(page, a, k, i - 1);
      assert InOrder(page, a[i - 1], a[i]) && DirectiveOk(page, a[i - 1]);
    }
  }

  lemma NextNotLater(page: string, files: (bool, string) -> Lookup, a: seq<Include>, b: seq<Include>, i: nat)
    requires NoNul(page) && i < |a| && i < |b|
    requires FoundUpTo(page, files, a, |page|) && FoundUpTo(page, files, b, |page|)
    requires forall k :: 0 <= k < i ==> SameInclude(a[k], b[k])
    ensures b[i].start <= a[i].start
  {
    hide LayoutOk, Covered, FromFile;
    var k := Coverer(page, files, a, b, i);
    if k < i {
      OrderedThrough(page, a, k, i);
    } else {
      OrderedThrough(page, b, i, k);
    }
  }

  lemma SameEnd(page: string, files: (bool, string) -> Lookup, a: seq<Include>, b: seq<Include>, i: nat)
    requires i < |a| && i < |b| && a[i].start == b[i].start
    requires FoundUpTo(page, files, a, |page|) && FoundUpTo(page, files, b, |page|)
    ensures SameInclude(a[i], b[i])
  {
    hide LayoutOk, Covered, FromFile;
    SameFile(page, files, a[i], b[i]);
  }

  lemma NameOf(page: string, files: (bool, string) -> Lookup, inc: Include) returns (v: bool, s: nat, e: nat)
    requires FromFile(page, files, inc)
    ensures inc.start + 4 <= |page|
    ensures NameAt(page, SkipFrom(page, inc.start + 4) + |INC_INCLUDE|, v, s, e) && inc.name == page[s..e]
    ensures files(v, inc.name) == Found(inc.contents) && ClosesAt(page, s, inc.end)
  {
    hide OpensAt, ClosesAt;
    v, s, e :|
      && NameAt(page, SkipFrom(page, inc.start + 4) + |INC_INCLUDE|, v, s, e)
      && e - s < 260 && inc.name == page[s..e]
      && files(v, inc.name) == Found(inc.contents)
      && ClosesAt(page, s, inc.end);
  }

  lemma SameFile(page: string, files: (bool, string) -> Lookup, a: Include, b: Include)
    requires a.start == b.start && FromFile(page, files, a) && FromFile(page, files, b)
    ensures SameInclude(a, b)
  {
    hide FromFile, OpensAt, ClosesAt;
    var v, s, e := NameOf(page, files, a);
    var v', s', e' := NameOf(page, files, b);
    OneName(page, SkipFrom(page, a.start + 4) + |INC_INCLUDE|, v, s, e, v', s', e');
    OneClose(page, s, a.end, b.end);
  }

  lemma OneName(page: string, from: nat, v: bool, s: nat, e: nat, v': bool, s': nat, e': nat)
    requires NameAt(page, from, v, s, e) && NameAt(page, from, v', s', e')
    ensures v == v' && s == s' && e == e'
  {
    hide OpensAt;
    OneOpening(page, from, v, s - 1, v', s' - 1);
  }

  lemma OneClose(page: string, from: nat, e: nat, e': nat)
    requires ClosesAt(page, from, e) && ClosesAt(page, from, e')
    ensures e == e'
  {
    assert WordAt(page, e - 3, "-->") && WordAt(page, e' - 3, "-->");
    hide WordAt;
  }

  // ---------- Splicing the files in ----------

  /** Where the page's own text goes on behind the first i directives. */
  function EndOf(incs: seq<Include>, i: nat): nat
    requires i <= |incs|
  {
    if i == 0 then 0 else incs[i - 1].end
  }

  /** The directives are in order and inside the page. */
  predicate Ordered(page: string, incs: seq<Include>) {
    forall i :: 0 <= i < |incs| ==> EndOf(incs, i) <= incs[i].start <= incs[i].end <= |page|
  }

  lemma LayoutIsOrdered(page: string, incs: seq<Include>)
    requires LayoutOk(page, incs)
    ensures Ordered(page, incs)
  {
    forall i | 0 <= i < |incs| ensures EndOf(incs, i) <= incs[i].start <= incs[i].end <= |page| {
      assert DirectiveOk(page, incs[i]);
      if i > 0 {
        assert InOrder(page, incs[i - 1], incs[i]);
      }
    }
  }

  lemma EndInPage(page: string, incs: seq<Include>, i: nat)
    requires Ordered(page, incs) && i <= |incs|
    ensures EndOf(incs, i) <= |page|
  {
  }

  /** The page's own text in front of directive i. */
  function Before(page: string, incs: seq<Include>, i: nat): string
    requires Ordered(page, incs) && i < |incs|
  {
    Part(page, EndOf(incs, i), incs[i].start)
  }

  /** The expanded text up to the end of the first i files. */
  function SplicedTo(page: string, incs: seq<Include>, i: nat): string
    requires Ordered(page, incs) && i <= |incs|
  {
    if i == 0 then "" else SplicedTo(page, incs, i - 1) + (Before(page, incs, i - 1) + incs[i - 1].contents)
  }

  /** The page with every directive replaced by its file. */
  function Spliced(page: string, incs: seq<Include>): string
    requires Ordered(page, incs)
  {
    EndInPage(page, incs, |incs|);
    SplicedTo(page, incs, |incs|) + Part(page, EndOf(incs, |incs|), |page|)
  }

  /** The line of the expanded text that file i starts on. */
  function TrueStart(page: string, incs: seq<Include>, i: nat): nat
    requires Ordered(page, incs) && i < |incs|
  {
    1 + LineEnds(SplicedTo(page, incs, i) + Before(page, incs, i))
  }

  /** `inc` is directive i of the page, and knows its place: the line its file starts on, and how many lines it has. */
  predicate Placed(page: string, incs: seq<Include>, i: nat, inc: Include)
    requires Ordered(page, incs) && i < |incs|
  {
    && inc == incs[i].(startLine := inc.startLine, lines := inc.lines)
    && inc.startLine == TrueStart(page, incs, i) && inc.lines == 1 + LineEnds(incs[i].contents)
  }

  /** Reads the files in: the page with every directive replaced, and each file's true place in it. */
  method ReadIncludeFiles(page: string, found: seq<Include>) returns (text: string, incs: seq<Include>)
    requires Ordered(page, found)
    ensures text == Spliced(page, found) && |incs| == |found|
    ensures forall i :: 0 <= i < |incs| ==> Placed(page, found, i, incs[i])
  {
    hide Part, LineEnds;
    incs, text := found, "";
    var read: nat, nLines: int := 0, 0;
    NoLineEnds();
    for i := 0 to |found|
      invariant |incs| == |found| && read == EndOf(found, i) && text == SplicedTo(page, found, i)
      invariant forall k :: 0 <= k < i ==> Placed(page, found, k, incs[k])
      invariant forall k :: i <= k < |found| ==> incs[k] == found[k]
      invariant nLines == LineEnds(text)
    {
      var inc := incs[i];
      var before := Copy(page, read, inc.start);
      LineEndsAppend(text, before);
      LineEndsAppend(text + before, inc.contents);
      Regroup(text, before, inc.contents);
      var line := GetLineNumber(page, read, inc.start);
      nLines := nLines + line;
      WholePart(inc.contents);
      line := GetLineNumber(inc.contents, 0, |inc.contents|);
      incs := incs[i := inc.(startLine := nLines, lines := line)];
      nLines := nLines + line - 2;
      text := text + before + inc.contents;
      read := inc.end;
    }
    EndInPage(page, found, |found|);
    text := text + Copy(page, read, |page|);
  }

  /** Finds the include files of a page and splices them in; a page without any stays as it is. */
  method ParseIncludes(page: string, files: (bool, string) -> Lookup)
    returns (error: FindError, text: string, found: seq<Include>, incs: seq<Include>)
    ensures error == NoError ==> LayoutOk(page, found) && Ordered(page, found) && |incs| == |found|
    ensures error == NoError ==> FoundUpTo(page, files, found, |page|)
    ensures error == NoError ==> text == Spliced(page, found)
    ensures error == NoError ==> forall i :: 0 <= i < |incs| ==> Placed(page, found, i, incs[i])
    ensures error != NoError ==> exists begin: nat :: StopsAt(page, files, found, begin, error)
  {
    error, found := FindIncludeFiles(page, files);
    incs, text := found, page;
    if error != NoError {
      return;
    }
    LayoutIsOrdered(page, found);
    if found == [] {
      WholePart(page);
      assert "" + page == page;
      return;
    }
    text, incs := ReadIncludeFiles(page, found);
  }

  lemma NoLineEnds()
    ensures LineEnds("") == 0
  {
  }

  /** memcpy. */
  function Copy(page: string, from: nat, to: nat): (s: string)
    requires from <= to <= |page|
    ensures s == Part(page, from, to)
  {
    page[from..to]
  }

  // ---------- Mapping lines back ----------

  /** A line of the page itself, or of include file i. */
  datatype Location = Location(line: int, file: Option<nat>)

  /** The search for a line of the expanded text, from include i on; `was` is what *ppszFileName holds before. */
  function Locate(incs: seq<Include>, i: nat, incLines: int, line: int, was: Option<nat>): Location
    requires i <= |incs|
    decreases |incs| - i
  {
    if i == |incs| then Location(line - incLines, was)
    else if line < incs[i].startLine then Location(line - incLines, None)
    else if line < incs[i].startLine + incs[i].lines then Location(line - incs[i].startLine + 1, Some(i))
    else Locate(incs, i + 1, incLines + (incs[i].lines - 1), line, was)
  }

  /** GetIncErrorInfo; behind the last include it leaves *ppszFileName alone. */
  method GetIncErrorInfo(incs: seq<Include>, scriptLine: int, was: Option<nat>) returns (loc: Location)
    requires |incs| <= MAX_INCLUDE_FILES
    ensures loc == if incs == [] then Location(scriptLine, None) else Locate(incs, 0, 0, scriptLine, was)
  {
    if incs == [] {
      return Location(scriptLine, None);
    }
    var total: int := 0;
    var i := 0;
    while i < |incs|
      invariant i <= |incs| && Locate(incs, i, total, scriptLine, was) == Locate(incs, 0, 0, scriptLine, was)
    {
      if scriptLine < incs[i].startLine {
        return Location(scriptLine - total, None);
      }
      if scriptLine < incs[i].startLine + incs[i].lines {
        return Location(scriptLine - incs[i].startLine + 1, Some(i));
      }
      total := total + (incs[i].lines - 1);
      i := i + 1;
    }
    return Location(scriptLine - total, was);
  }

  /** Every directive is on one line, and no two are on the same one. */
  predicate OneLineEach(page: string, incs: seq<Include>)
    requires Ordered(page, incs)
  {
    && (forall i :: 0 <= i < |incs| ==> LineEnds(Part(page, incs[i].start, incs[i].end)) == 0)
    && (forall i :: 0 < i < |incs| ==> LineEnds(Before(page, incs, i)) > 0)
  }

  /** With single-line directives, the layout check puts each on a line of its own. */
  lemma LayoutGivesLines(page: string, incs: seq<Include>)
    requires LayoutOk(page, incs) && Ordered(page, incs)
    requires forall i :: 0 <= i < |incs| ==> LineEnds(Part(page, incs[i].start, incs[i].end)) == 0
    ensures OneLineEach(page, incs)
  {
    forall i | 0 < i < |incs| ensures LineEnds(Before(page, incs, i)) > 0 {
      assert InOrder(page, incs[i - 1], incs[i]) && DirectiveOk(page, incs[i]);
      var a, b, c := incs[i - 1].end, incs[i].start, SkipFrom(page, incs[i].start + |COMMENT_BEGIN|);
      DirectiveReaches(page, incs[i]);
      SplitPart(page, a, b, c);
      SplitPart(page, b, c, incs[i].end);
    }
  }

  lemma SplitPart(page: string, a: nat, b: nat, c: nat)
    requires a <= b <= c <= |page|
    ensures LineEnds(Part(page, a, c)) == LineEnds(Part(page, a, b)) + LineEnds(Part(page, b, c))
  {
    hide Part, LineEnds;
    LineEndsAppend(Part(page, a, b), Part(page, b, c));
    JoinParts(page, a, b, c);
  }

  /** The white space at the front of a directive is inside it. */
  lemma DirectiveReaches(page: string, inc: Include)
    requires DirectiveOk(page, inc)
    ensures inc.start + |COMMENT_BEGIN| <= SkipFrom(page, inc.start + |COMMENT_BEGIN|) <= inc.end
  {
    var j := SkipFrom(page, inc.start + |COMMENT_BEGIN|);
    var at := inc.end - |COMMENT_END|;
    assert page[at..at + 3][0] == page[at] == '-';
  }

  /** The lines that the first i files add. */
  function AddedLines(incs: seq<Include>, i: nat): nat
    requires i <= |incs|
  {
    if i == 0 then 0 else AddedLines(incs, i - 1) + LineEnds(incs[i - 1].contents)
  }

  lemma {:induction false} SplicedLines(page: string, incs: seq<Include>, i: nat)
    requires Ordered(page, incs) && OneLineEach(page, incs) && i <= |incs| && EndOf(incs, i) <= |page|
    ensures LineEnds(SplicedTo(page, incs, i)) == LineEnds(Part(page, 0, EndOf(incs, i))) + AddedLines(incs, i)
  {
    hide Part, LineEnds;
    if i == 0 {
      NoLineEnds();
      assert Part(page, 0, 0) == "";
    } else {
      var p := incs[i - 1];
      EndInPage(page, incs, i - 1);
      SplicedLines(page, incs, i - 1);
      LineEndsAppend(SplicedTo(page, incs, i - 1), Before(page, incs, i - 1) + p.contents);
      LineEndsAppend(Before(page, incs, i - 1), p.contents);
      SplitPart(page, 0, EndOf(incs, i - 1), p.start);
      SplitPart(page, 0, p.start, p.end);
    }
  }

  /** Every file ends on a line in front of the next one's first. */
  lemma StartsApart(page: string, incs: seq<Include>, i: nat)
    requires Ordered(page, incs) && OneLineEach(page, incs) && 0 < i < |incs|
    ensures TrueStart(page, incs, i) >= TrueStart(page, incs, i - 1) + 1 + LineEnds(incs[i - 1].contents)
  {
    hide Part, LineEnds;
    SplicedEnds(page, incs, i);
    LineEndsAppend(SplicedTo(page, incs, i), Before(page, incs, i));
  }

  lemma SplicedEnds(page: string, incs: seq<Include>, i: nat)
    requires Ordered(page, incs) && 0 < i <= |incs|
    ensures 1 + LineEnds(SplicedTo(page, incs, i)) == TrueStart(page, incs, i - 1) + LineEnds(incs[i - 1].contents)
  {
    hide Part, LineEnds;
    var a, b, c := SplicedTo(page, incs, i - 1), Before(page, incs, i - 1), incs[i - 1].contents;
    LineEndsAppend(a + b, c);
    Regroup(a, b, c);
  }

  lemma {:induction false} StartsRise(page: string, incs: seq<Include>, k: nat, i: nat)
    requires Ordered(page, incs) && OneLineEach(page, incs) && k < i < |incs|
    ensures TrueStart(page, incs, i) >= TrueStart(page, incs, k) + 1 + LineEnds(incs[k].contents)
    decreases i
  {
    hide LineEnds, Ordered, OneLineEach;
    StartsApart(page, incs, i);
    if k < i - 1 {
      StartsRise(page, incs, k, i - 1);
    }
  }

  /** All places are known. */
  predicate AllPlaced(page: string, found: seq<Include>, incs: seq<Include>)
    requires Ordered(page, found)
  {
    |incs| == |found| && forall i :: 0 <= i < |incs| ==> Placed(page, found, i, incs[i])
  }

  /** The search passes the first i files if the line is behind them. */
  lemma {:induction false} Passes(page: string, found: seq<Include>, incs: seq<Include>, k: nat, i: nat, line: int,
      was: Option<nat>)
    requires Ordered(page, found) && OneLineEach(page, found) && AllPlaced(page, found, incs) && k <= i <= |found|
    requires i > 0 ==> line >= TrueStart(page, found, i - 1) + 1 + LineEnds(found[i - 1].contents)
    ensures Locate(incs, k, AddedLines(found, k), line, was) == Locate(incs, i, AddedLines(found, i), line, was)
    decreases i - k
  {
    hide LineEnds, TrueStart, Ordered, OneLineEach;
    if k < i {
      assert Placed(page, found, k, incs[k]);
      if k < i - 1 {
        StartsRise(page, found, k, i - 1);
      }
      Passes(page, found, incs, k + 1, i, line, was);
    }
  }

  /**
    A line of an include file maps back to it: position j of file i, wherever that is in the expanded
    text, comes back as file i and its own line.
  */
  lemma FileLineComesBack(page: string, found: seq<Include>, incs: seq<Include>, i: nat, j: nat, was: Option<nat>)
    requires Ordered(page, found) && OneLineEach(page, found) && AllPlaced(page, found, incs)
    requires i < |found| && j <= |found[i].contents|
    ensures var at := SplicedTo(page, found, i) + Before(page, found, i) + found[i].contents[..j];
      && at <= Spliced(page, found)
      && Locate(incs, 0, 0, 1 + LineEnds(at), was) == Location(1 + LineEnds(found[i].contents[..j]), Some(i))
  {
    hide Part, LineEnds, Ordered, OneLineEach;
    var front := SplicedTo(page, found, i) + Before(page, found, i);
    var head, tail := found[i].contents[..j], found[i].contents[j..];
    var line := 1 + LineEnds(front + head);
    LineEndsAppend(front, head);
    LineEndsAppend(head, tail);
    assert head + tail == found[i].contents;
    if i > 0 {
      StartsApart(page, found, i);
    }
    Passes(page, found, incs, 0, i, line, was);
    assert Placed(page, found, i, incs[i]);
    FileInPlace(page, found, i, head, tail);
  }

  lemma FileInPlace(page: string, found: seq<Include>, i: nat, head: string, tail: string)
    requires Ordered(page, found) && i < |found| && head + tail == found[i].contents
    ensures SplicedTo(page, found, i) + Before(page, found, i) + head <= Spliced(page, found)
  {
    hide Part, Ordered;
    var a, b := SplicedTo(page, found, i), Before(page, found, i);
    Regroup(a, b, head + tail);
    Regroup(a + b, head, tail);
    SplicedGrows(page, found, i + 1, |found|);
    assert a + b + head <= SplicedTo(page, found, i + 1);
  }

  lemma {:induction false} SplicedGrows(page: string, found: seq<Include>, i: nat, k: nat)
    requires Ordered(page, found) && i <= k <= |found|
    ensures SplicedTo(page, found, i) <= SplicedTo(page, found, k)
    decreases k
  {
    hide Part, Ordered;
    if i < k {
      SplicedGrows(page, found, i, k - 1);
    }
  }

  /**
    A position of the page's own text maps back to its line of the page, unless it shares a line with
    a directive: q is in the text in front of directive i, or behind the last one.
  */
  lemma PageLineComesBack(page: string, found: seq<Include>, incs: seq<Include>, i: nat, q: nat)
    requires Ordered(page, found) && OneLineEach(page, found) && AllPlaced(page, found, incs) && i <= |found|
    requires EndOf(found, i) <= q <= (if i < |found| then found[i].start else |page|) <= |page|
    requires i > 0 ==> LineEnds(Part(page, EndOf(found, i), q)) > 0
    requires i < |found| ==> LineEnds(Part(page, q, found[i].start)) > 0
    ensures var at := SplicedTo(page, found, i) + Part(page, EndOf(found, i), q);
      && at <= Spliced(page, found)
      && Locate(incs, 0, 0, 1 + LineEnds(at), None) == Location(1 + LineEnds(Part(page, 0, q)), None)
  {
    hide Part, LineEnds, Ordered, OneLineEach, SplicedTo, Spliced, AddedLines;
    var front, own := SplicedTo(page, found, i), Part(page, EndOf(found, i), q);
    var line := 1 + LineEnds(front + own);
    OwnLine(page, found, i, q);
    LineEndsAppend(front, own);
    if i > 0 {
      SplicedEnds(page, found, i);
    }
    Passes(page, found, incs, 0, i, line, None);
    if i < |found| {
      assert Placed(page, found, i, incs[i]);
      LineEndsAppend(front, Before(page, found, i));
      SplitPart(page, EndOf(found, i), q, found[i].start);
    }
    OwnInPlace(page, found, i, q);
    NothingAdded(found);
  }

  lemma NothingAdded(found: seq<Include>)
    ensures AddedLines(found, 0) == 0
  {
  }

  lemma OwnLine(page: string, found: seq<Include>, i: nat, q: nat)
    requires Ordered(page, found) && OneLineEach(page, found) && i <= |found| && EndOf(found, i) <= q <= |page|
    ensures LineEnds(SplicedTo(page, found, i) + Part(page, EndOf(found, i), q))
      == LineEnds(Part(page, 0, q)) + AddedLines(found, i)
  {
    hide Part, LineEnds, Ordered, OneLineEach;
    LineEndsAppend(SplicedTo(page, found, i), Part(page, EndOf(found, i), q));
    SplicedLines(page, found, i);
    SplitPart(page, 0, EndOf(found, i), q);
  }

  lemma OwnInPlace(page: string, found: seq<Include>, i: nat, q: nat)
    requires Ordered(page, found) && i <= |found|
    requires EndOf(found, i) <= q <= (if i < |found| then found[i].start else |page|) <= |page|
    ensures SplicedTo(page, found, i) + Part(page, EndOf(found, i), q) <= Spliced(page, found)
  {
    hide Part, Ordered;
    var to := if i < |found| then found[i].start else |page|;
    var front, own, more := SplicedTo(page, found, i), Part(page, EndOf(found, i), q), Part(page, q, to);
    JoinParts(page, EndOf(found, i), q, to);
    Regroup(front, own, more);
    if i < |found| {
      SplicedGrows(page, found, i + 1, |found|);
      Regroup(front, own + more, found[i].contents);
      assert front + own <= SplicedTo(page, found, i + 1);
    }
  }
}
