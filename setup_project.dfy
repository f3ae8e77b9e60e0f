/** The name handling of setup_project.py: validating the project name,
    replacing the template's placeholder in file texts, rewriting the
    `name = "..."` assignment of pyproject.toml, and locating and renaming the
    VS Code workspace file. Files live in a map from path to text. */
module SetupProject {
  import opened Wrappers
  import opened PyStr

  /** TOKEN: the placeholder the template carries. */
  const Token := "input_name"

  /** The extension `*.code-workspace` files have. */
  const WorkspaceSuffix := ".code-workspace"

  /** WORKSPACE_BASENAME: the template's own workspace file name. */
  const WorkspaceBasename := Token + WorkspaceSuffix

  // ---------------------------------------------------------------------------
  // validate_project_name
  // ---------------------------------------------------------------------------

  /** The ValueError messages of validate_project_name. */
  datatype NameError = EmptyName | ContainsSpace | BadPattern

  /** `[A-Za-z0-9]` */
  predicate IsAsciiAlnum(c: char) {
    'A' <= c <= 'Z' || 'a' <= c <= 'z' || '0' <= c <= '9'
  }

  /** `[A-Za-z0-9._-]` */
  predicate IsNameChar(c: char) {
    IsAsciiAlnum(c) || c == '.' || c == '_' || c == '-'
  }

  /** `re.match(r"^[A-Za-z0-9][A-Za-z0-9._-]*$", s)` on an s that has no
      trailing newline (the `$` before a final newline cannot arise after strip). */
  predicate MatchesNamePattern(s: string) {
    s != [] && IsAsciiAlnum(s[0]) && forall i :: 1 <= i < |s| ==> IsNameChar(s[i])
  }

  /** `validate_project_name`: the stripped name, or why it was refused. */
  function ValidateProjectName(name: string): (r: Result<string, NameError>)
    ensures r.Success? ==> r.value == Strip(name)
    ensures r.Success? <==> MatchesNamePattern(Strip(name))
    ensures r == Failure(EmptyName) <==> AllSpace(name)
    ensures r == Failure(ContainsSpace) <==> !AllSpace(name) && ' ' in Strip(name)
  {
    var n := Strip(name);
    if n == [] then Failure(EmptyName)
    else if ' ' in n then
      assert !MatchesNamePattern(n) by {
        var i :| 0 <= i < |n| && n[i] == ' ';
        assert !IsNameChar(n[i]);
      }
      Failure(ContainsSpace)
    else if !MatchesNamePattern(n) then Failure(BadPattern)
    else Success(n)
  }

  /** An accepted name passes validation again, unchanged. */
  lemma ValidateIdempotent(name: string)
    requires ValidateProjectName(name).Success?
    ensures ValidateProjectName(ValidateProjectName(name).value) == ValidateProjectName(name)
  {
    var n := ValidateProjectName(name).value;
    assert !IsSpace(n[0]) && !IsSpace(n[|n| - 1]);
    assert Strip(n) == n;
  }

  // ---------------------------------------------------------------------------
  // update_pyproject_name_line: re.sub(r'^(\s*name\s*=\s*)"(.*?)"', ..., re.MULTILINE)
  // ---------------------------------------------------------------------------

  /** One match of the pattern: group 1 (`head`), the quoted value, and the
      text after the closing quote. */
  datatype NameMatch = NameMatch(head: string, value: string, tail: string)

  /** The literal `name` sits at index i of s. */
  predicate NameAt(s: string, i: nat) {
    i + 4 <= |s| && s[i] == 'n' && s[i + 1] == 'a' && s[i + 2] == 'm' && s[i + 3] == 'e'
  }

  /** Where a scan stopped, if it found what it looked for. */
  datatype Scan = NotFound | Found(at: nat)

  /** `\s*name\s*=\s*` matched at the start of s: the index just past the
      match. Each `\s*` takes the longest run of whitespace; the literal after
      it is never whitespace, so there is nothing to backtrack into. */
  function MatchHead(s: string): (q: Scan)
  {
    var i := SkipSpaces(s, 0);
    if NameAt(s, i) then AfterName(s, i) else NotFound
  }

  /** `\s*=\s*` after the `name` at index i. */
  function AfterName(s: string, i: nat): (q: Scan)
    requires i + 4 <= |s|
  {
    var j := SkipSpaces(s, i + 4);
    if j < |s| && s[j] == '=' then Found(SkipSpaces(s, j + 1)) else NotFound
  }

  /** Whitespace a, the literal `name`, whitespace b, `=`, whitespace c. */
  function HeadOf(a: string, b: string, c: string): string {
    a + "name" + b + "=" + c
  }

  /** `\s*name\s*=\s*` matches all of h, read off the pattern. */
  ghost predicate IsNameHead(h: string) {
    exists a, b, c :: AllSpace(a) && AllSpace(b) && AllSpace(c) && h == HeadOf(a, b, c)
  }

  /** The head scanner accepts every text of the pattern's form, whole. */
  lemma HeadOfScans(a: string, b: string, c: string)
    requires AllSpace(a) && AllSpace(b) && AllSpace(c)
    ensures var h := HeadOf(a, b, c); MatchHead(h) == Found(|h|)
  {
    var h := HeadOf(a, b, c);
    var i := |a|;
    var j := |a| + 4 + |b|;
    assert h[..i] == a && h[i..i + 4] == "name" && h[i + 4..j] == b && h[j] == '=' && h[j + 1..] == c;
    assert SkipSpaces(h, 0) == i by {
      assert forall k :: 0 <= k < i ==> h[k] == h[..i][k];
      SkipSpacesUnique(h, 0, i);
    }
    assert SkipSpaces(h, i + 4) == j by {
      assert forall k :: i + 4 <= k < j ==> h[k] == h[i + 4..j][k - i - 4];
      SkipSpacesUnique(h, i + 4, j);
    }
    assert SkipSpaces(h, j + 1) == |h| by {
      assert forall k :: j + 1 <= k < |h| ==> h[k] == h[j + 1..][k - j - 1];
      SkipSpacesUnique(h, j + 1, |h|);
    }
    MatchHeadFrom(h, i, j, |h|);
  }

  /** A text with `name` at i and `=` at j is the pattern's pieces put together. */
  lemma HeadOfSplit(h: string, i: nat, j: nat)
    requires i + 4 <= j < |h| && NameAt(h, i) && h[j] == '='
    ensures h == HeadOf(h[..i], h[i + 4..j], h[j + 1..])
  {
    assert h[i..i + 4] == "name";
    assert h[j..j + 1] == "=";
    assert h == h[..i] + h[i..i + 4] + h[i + 4..j] + h[j..j + 1] + h[j + 1..];
  }

  /** Every text the head scanner accepts whole has the pattern's form. */
  lemma ScannedHeadOf(h: string)
    requires MatchHead(h) == Found(|h|)
    ensures IsNameHead(h)
  {
    var i := SkipSpaces(h, 0);
    var j := SkipSpaces(h, i + 4);
    assert NameAt(h, i) && j < |h| && h[j] == '=' && SkipSpaces(h, j + 1) == |h|;
    var a, b, c := h[..i], h[i + 4..j], h[j + 1..];
    assert AllSpace(a) by {
      SkipSpacesBlank(h, 0);
    }
    assert AllSpace(b) by {
      SkipSpacesBlank(h, i + 4);
    }
    assert AllSpace(c) by {
      SkipSpacesBlank(h, j + 1);
    }
    HeadOfSplit(h, i, j);
  }

  /** Skipping whitespace in the first n characters of s stops where it
      stops in s, or at n. */
  lemma SkipSpacesPrefix(s: string, n: nat, i: nat)
    requires i <= n <= |s|
    ensures var j := SkipSpaces(s, i); SkipSpaces(s[..n], i) == if j < n then j else n
  {
    var j := SkipSpaces(s, i);
    var m := if j < n then j else n;
    var t := s[..n];
    SkipSpacesBlank(s, i);
    forall k | i <= k < m ensures IsSpace(t[k]) {
      assert t[k] == s[k];
    }
    if m < n {
      assert t[m] == s[m];
    }
    SkipSpacesUnique(t, i, m);
  }

  /** `name` at i of s is `name` at i of any prefix of s that holds it. */
  lemma NameAtPrefix(s: string, n: nat, i: nat)
    requires i + 4 <= n <= |s|
    ensures NameAt(s[..n], i) <==> NameAt(s, i)
  {
    var t := s[..n];
    assert t[i] == s[i] && t[i + 1] == s[i + 1] && t[i + 2] == s[i + 2] && t[i + 3] == s[i + 3];
  }

  /** The head the pattern finds, from the three places its scan stops at:
      the `name` at i, the `=` at j and the end q of the last `\s*`. */
  lemma MatchHeadFrom(s: string, i: nat, j: nat, q: nat)
    requires i + 4 <= |s| && j < |s| && j + 1 <= |s|
    requires SkipSpaces(s, 0) == i && NameAt(s, i)
    requires SkipSpaces(s, i + 4) == j && s[j] == '='
    requires SkipSpaces(s, j + 1) == q
    ensures MatchHead(s) == Found(q)
  {
  }

  /** A head the pattern finds in s that ends by n is found in the first n
      characters of s too. */
  lemma MatchHeadShorten(s: string, n: nat)
    requires n <= |s|
    requires MatchHead(s).Found? && MatchHead(s).at <= n
    ensures MatchHead(s[..n]) == MatchHead(s)
  {
    var t := s[..n];
    var i := SkipSpaces(s, 0);
    var j := SkipSpaces(s, i + 4);
    var q := SkipSpaces(s, j + 1);
    assert NameAt(s, i) && j < |s| && s[j] == '=' && MatchHead(s) == Found(q);
    assert SkipSpaces(t, 0) == i && NameAt(t, i) by {
      SkipSpacesPrefix(s, n, 0);
      NameAtPrefix(s, n, i);
    }
    assert SkipSpaces(t, i + 4) == j && t[j] == '=' by {
      SkipSpacesPrefix(s, n, i + 4);
    }
    assert SkipSpaces(t, j + 1) == q by {
      SkipSpacesPrefix(s, n, j + 1);
    }
    MatchHeadFrom(t, i, j, q);
  }

  /** A head the pattern finds in the first n characters of s is the one it
      finds in s, as long as it ends before n, or at n with no whitespace after
      it in s. */
  lemma MatchHeadExtend(s: string, n: nat)
    requires n <= |s|
    requires MatchHead(s[..n]).Found?
    requires MatchHead(s[..n]).at < n || n == |s| || !IsSpace(s[n])
    ensures MatchHead(s) == MatchHead(s[..n])
  {
    var t := s[..n];
    var i := SkipSpaces(t, 0);
    var j := SkipSpaces(t, i + 4);
    var q := SkipSpaces(t, j + 1);
    assert NameAt(t, i) && j < |t| && t[j] == '=' && MatchHead(t) == Found(q);
    assert SkipSpaces(s, 0) == i && NameAt(s, i) by {
      SkipSpacesPrefix(s, n, 0);
      NameAtPrefix(s, n, i);
    }
    assert SkipSpaces(s, i + 4) == j && s[j] == '=' by {
      SkipSpacesPrefix(s, n, i + 4);
    }
    assert SkipSpaces(s, j + 1) == q by {
      SkipSpacesPrefix(s, n, j + 1);
      SkipSpacesBlank(s, j + 1);
    }
    MatchHeadFrom(s, i, j, q);
  }

  /** `(.*?)"` from index i on: the index of the first quote at or after i,
      provided no newline comes before it. */
  function ClosingQuote(s: string, i: nat): (e: Scan)
    requires i <= |s|
    ensures e.Found? ==> i <= e.at < |s| && s[e.at] == '"'
    decreases |s| - i
  {
    if i == |s| then NotFound
    else if s[i] == '"' then Found(i)
    else if s[i] == '\n' then NotFound
    else ClosingQuote(s, i + 1)
  }

  /** `.*?` spans no quote and no newline: nothing between i and the closing
      quote is either. */
  lemma {:induction false} ClosingQuoteClean(s: string, i: nat)
    requires i <= |s| && ClosingQuote(s, i).Found?
    ensures forall k :: i <= k < ClosingQuote(s, i).at ==> s[k] != '"' && s[k] != '\n'
    decreases |s| - i
  {
    if s[i] != '"' {
      ClosingQuoteClean(s, i + 1);
    }
  }

  /** A quote with no quote or newline between i and it is the one `(.*?)"` finds. */
  lemma {:induction false} ClosingQuoteAt(s: string, i: nat, e: nat)
    requires i <= e < |s| && s[e] == '"'
    requires forall k :: i <= k < e ==> s[k] != '"' && s[k] != '\n'
    ensures ClosingQuote(s, i) == Found(e)
    decreases e - i
  {
    if i < e {
      ClosingQuoteAt(s, i + 1, e);
    }
  }

  /** The match whose opening quote is at q and closing quote at e. */
  function Groups(s: string, q: nat, e: nat): NameMatch
    requires q < e < |s|
  {
    NameMatch(s[..q], s[q + 1..e], s[e + 1..])
  }

  /** The groups cut s around its two quotes. */
  lemma GroupsSplit(s: string, q: nat, e: nat)
    requires q < e < |s| && s[q] == '"' && s[e] == '"'
    ensures var m := Groups(s, q, e); s == m.head + ("\"" + m.value + "\"" + m.tail)
  {
  }

  /** The pattern matched at the start of s. */
  function MatchNameAssignment(s: string): (m: Option<NameMatch>)
    ensures m.Some? ==> |m.value.head| + |m.value.value| + 2 + |m.value.tail| == |s|
  {
    match MatchHead(s)
    case NotFound => None
    case Found(q) =>
      if !(q < |s| && s[q] == '"') then None
      else
        match ClosingQuote(s, q + 1)
        case NotFound => None
        case Found(e) =>
          Some(Groups(s, q, e))
  }

  /** A match splits s into group 1, the quoted value and the rest. */
  lemma MatchedSplit(s: string)
    requires MatchNameAssignment(s).Some?
    ensures var m := MatchNameAssignment(s).value;
            s == m.head + ("\"" + m.value + "\"" + m.tail)
  {
    var q := MatchHead(s).at;
    var e := ClosingQuote(s, q + 1).at;
    MatchNameAssignmentAt(s, q, e);
    GroupsSplit(s, q, e);
  }

  /** The quoted value of a match holds no quote and no newline. */
  lemma MatchedValueClean(s: string)
    requires MatchNameAssignment(s).Some?
    ensures '"' !in MatchNameAssignment(s).value.value && '\n' !in MatchNameAssignment(s).value.value
  {
    var q := MatchHead(s).at;
    var e := ClosingQuote(s, q + 1).at;
    ClosingQuoteClean(s, q + 1);
    var v := s[q + 1..e];
    assert forall k :: 0 <= k < |v| ==> v[k] == s[q + 1 + k];
  }

  /** Group 1 of a match is itself matched, whole, by `\s*name\s*=\s*`. */
  lemma MatchedHeadIsNameHead(s: string)
    requires MatchNameAssignment(s).Some?
    ensures IsNameHead(MatchNameAssignment(s).value.head)
  {
    var q := MatchHead(s).at;
    assert MatchNameAssignment(s).value.head == s[..q];
    MatchHeadShorten(s, q);
    ScannedHeadOf(s[..q]);
  }

  /** The match the pattern makes once its head ends at q and its closing quote is at e. */
  lemma MatchNameAssignmentAt(s: string, q: nat, e: nat)
    requires MatchHead(s) == Found(q) && q < |s| && s[q] == '"'
    requires ClosingQuote(s, q + 1) == Found(e)
    ensures MatchNameAssignment(s) == Some(Groups(s, q, e))
  {
    assert q + 1 <= e < |s| && s[e] == '"';
  }

  /** Where the parts of head, quote, value, quote, tail sit in the text. */
  lemma QuotedLayout(h: string, v: string, t: string)
    requires '"' !in v && '\n' !in v
    ensures var s := h + ("\"" + v + "\"" + t);
            var e := |h| + 1 + |v|;
            && s[..|h|] == h && s[|h|] == '"' && s[e] == '"'
            && s[|h| + 1..e] == v && s[e + 1..] == t
            && forall k :: |h| + 1 <= k < e ==> s[k] != '"' && s[k] != '\n'
  {
    var s := h + ("\"" + v + "\"" + t);
    forall k | |h| + 1 <= k < |h| + 1 + |v| ensures s[k] != '"' && s[k] != '\n' {
      assert s[k] == v[k - |h| - 1];
    }
  }

  /** Conversely, every text of the form head, quote, value, quote, tail with a
      head that matches `\s*name\s*=\s*` and a one-line, quote-free value is
      matched, and split exactly there. */
  lemma MatchNameAssignmentOf(h: string, v: string, t: string)
    requires IsNameHead(h)
    requires '"' !in v && '\n' !in v
    ensures MatchNameAssignment(h + ("\"" + v + "\"" + t)) == Some(NameMatch(h, v, t))
  {
    var a, b, c :| AllSpace(a) && AllSpace(b) && AllSpace(c) && h == HeadOf(a, b, c);
    HeadOfScans(a, b, c);
    MatchScannedAssignment(h, v, t);
  }

  /** The same, for a head given by where the scanner stops. */
  lemma MatchScannedAssignment(h: string, v: string, t: string)
    requires MatchHead(h) == Found(|h|)
    requires '"' !in v && '\n' !in v
    ensures MatchNameAssignment(h + ("\"" + v + "\"" + t)) == Some(NameMatch(h, v, t))
  {
    var s := h + ("\"" + v + "\"" + t);
    var e := |h| + 1 + |v|;
    assert |h| < |s| && s[|h|] == '"' && s[..|h|] == h && s[|h| + 1..e] == v && s[e + 1..] == t by {
      QuotedLayout(h, v, t);
    }
    assert MatchHead(s) == Found(|h|) by {
      QuotedLayout(h, v, t);
      MatchHeadExtend(s, |h|);
    }
    assert ClosingQuote(s, |h| + 1) == Found(e) by {
      QuotedLayout(h, v, t);
      ClosingQuoteAt(s, |h| + 1, e);
    }
    MatchNameAssignmentAt(s, |h|, e);
  }

  /** re.sub's scan from one position on: at a line start (`^` with
      re.MULTILINE), a match is replaced by group 1 and the quoted newName and
      the scan resumes after it; otherwise one character is kept. */
  function RewriteFrom(s: string, lineStart: bool, newName: string): (r: string)
    ensures '\n' !in newName ==> multiset(r)['\n'] == multiset(s)['\n']
    decreases |s|
  {
    if s == [] then []
    else
      match (if lineStart then MatchNameAssignment(s) else None)
      case Some(m) =>
        MatchedSplit(s);
        MatchedValueClean(s);
        m.head + ("\"" + newName + "\"" + RewriteFrom(m.tail, false, newName))
      case None =>
        assert s == [s[0]] + s[1..];
        [s[0]] + RewriteFrom(s[1..], s[0] == '\n', newName)
  }

  /** At a line start, an assignment `h"v"` is rewritten to `h"newName"` and the
      scan goes on after its closing quote. */
  lemma RewriteAtAssignment(h: string, v: string, t: string, newName: string)
    requires IsNameHead(h)
    requires '"' !in v && '\n' !in v
    ensures RewriteFrom(h + ("\"" + v + "\"" + t), true, newName) ==
            h + ("\"" + newName + "\"" + RewriteFrom(t, false, newName))
  {
    MatchNameAssignmentOf(h, v, t);
  }

  /** Where the pattern does not match, the scan keeps one character and moves on. */
  lemma RewriteStep(c: char, x: string, lineStart: bool, newName: string)
    requires lineStart ==> MatchNameAssignment([c] + x).None?
    ensures RewriteFrom([c] + x, lineStart, newName) == [c] + RewriteFrom(x, c == '\n', newName)
  {
    assert ([c] + x)[0] == c && ([c] + x)[1..] == x;
  }

  /** Text up to the next newline is kept as it is when the pattern does not
      match where the scan enters it; the scan is at a line start after it
      only if it was empty and the scan was at one already.  With `t == []`
      this is the last line of the file. */
  lemma {:induction false} RewriteKeepsPrefix(l: string, t: string, lineStart: bool, newName: string)
    requires '\n' !in l
    requires lineStart ==> MatchNameAssignment(l + t).None?
    ensures RewriteFrom(l + t, lineStart, newName) == l + RewriteFrom(t, lineStart && |l| == 0, newName)
    decreases |l|
  {
    if |l| > 0 {
      var c, l1 := l[0], l[1..];
      assert l == [c] + l1;
      assert c != '\n' && '\n' !in l1;
      assert l + t == [c] + (l1 + t);
      RewriteStep(c, l1 + t, lineStart, newName);
      RewriteKeepsPrefix(l1, t, false, newName);
      Regroup(c, l1, [], RewriteFrom(t, false, newName));
    } else {
      assert l + t == t;
    }
  }

  /** A whole line the pattern does not match at its start is kept as it is,
      and the scan starts afresh after its newline. */
  lemma RewriteKeepsLine(l: string, t: string, lineStart: bool, newName: string)
    requires '\n' !in l
    requires lineStart ==> MatchNameAssignment(l + ("\n" + t)).None?
    ensures RewriteFrom(l + ("\n" + t), lineStart, newName) == l + ("\n" + RewriteFrom(t, true, newName))
  {
    RewriteKeepsPrefix(l, "\n" + t, lineStart, newName);
    assert |l| == 0 ==> l + ("\n" + t) == "\n" + t;
    RewriteStep('\n', t, lineStart && |l| == 0, newName);
  }

  /** The text of pyproject.toml with every `name = "..."` assignment quoting newName. */
  function RewriteNameLines(text: string, newName: string): string {
    RewriteFrom(text, true, newName)
  }

  /** Every assignment the scan finds already quotes v. */
  predicate NamesAlready(s: string, lineStart: bool, v: string)
    decreases |s|
  {
    s == [] ||
    match (if lineStart then MatchNameAssignment(s) else None)
    case Some(m) => m.value == v && NamesAlready(m.tail, false, v)
    case None => NamesAlready(s[1..], s[0] == '\n', v)
  }

  /** Two quote-free strings, each quoted and followed by more text, split a
      text the same way. */
  lemma QuotedPrefixUnique(v: string, w: string, x: string, y: string)
    requires '"' !in v && '"' !in w
    requires "\"" + v + "\"" + x == "\"" + w + "\"" + y
    ensures v == w && x == y
  {
    var s := "\"" + v + "\"" + x;
    assert s[|v| + 1] == '"';
    assert s[|w| + 1] == '"';
    assert v == s[1..|v| + 1] && w == s[1..|w| + 1];
    assert x == s[|v| + 2..] && y == s[|w| + 2..];
  }

  /** Equal texts with the same prefix have equal remainders. */
  lemma CancelPrefix(a: string, x: string, y: string)
    requires a + x == a + y
    ensures x == y
  {
    assert x == (a + x)[|a|..];
    assert y == (a + y)[|a|..];
  }

  /** At a matched assignment the rewrite keeps the text exactly when the
      assignment already quotes newName and the rest of the text is kept. */
  lemma RewriteMatchUnchangedIff(s: string, m: NameMatch, newName: string)
    requires '"' !in newName
    requires MatchNameAssignment(s) == Some(m)
    ensures RewriteFrom(s, true, newName) == s <==>
              m.value == newName && RewriteFrom(m.tail, false, newName) == m.tail
  {
    var rest := RewriteFrom(m.tail, false, newName);
    var x := "\"" + newName + "\"" + rest;
    var y := "\"" + m.value + "\"" + m.tail;
    MatchedSplit(s);
    MatchedValueClean(s);
    assert RewriteFrom(s, true, newName) == m.head + x;
    if m.head + x == m.head + y {
      CancelPrefix(m.head, x, y);
      QuotedPrefixUnique(newName, m.value, rest, m.tail);
    }
  }

  /** The rewrite leaves the text as it is exactly when every assignment
      already quotes newName. */
  lemma {:induction false} RewriteUnchangedIff(s: string, lineStart: bool, newName: string)
    requires '"' !in newName
    ensures RewriteFrom(s, lineStart, newName) == s <==> NamesAlready(s, lineStart, newName)
    decreases |s|
  {
    if s != [] {
      match (if lineStart then MatchNameAssignment(s) else None)
      case Some(m) =>
        RewriteUnchangedIff(m.tail, false, newName);
        RewriteMatchUnchangedIff(s, m, newName);
      case None =>
        RewriteUnchangedIff(s[1..], s[0] == '\n', newName);
        assert s == [s[0]] + s[1..];
    }
  }

  // ---------------------------------------------------------------------------
  // find_or_expect_workspace_file
  // ---------------------------------------------------------------------------

  /** A path as the directory it is in and its file name. */
  datatype Path = Path(dir: string, name: string)

  /** `name.endswith(suffix)` */
  predicate EndsWith(name: string, suffix: string) {
    |suffix| <= |name| && name[|name| - |suffix|..] == suffix
  }

  /** A file the glob `*.code-workspace` yields whose name still holds TOKEN. */
  predicate IsTemplateWorkspace(name: string) {
    EndsWith(name, WorkspaceSuffix) && Contains(name, Token)
  }

  /** The first directory entry that is a template workspace file. */
  function FirstTemplateWorkspace(listing: seq<string>): (r: Option<nat>)
    ensures r.Some? ==> r.value < |listing| && IsTemplateWorkspace(listing[r.value])
    ensures r.Some? ==> forall j :: 0 <= j < r.value ==> !IsTemplateWorkspace(listing[j])
    ensures r.None? ==> forall j :: 0 <= j < |listing| ==> !IsTemplateWorkspace(listing[j])
    decreases |listing|
  {
    if listing == [] then None
    else if IsTemplateWorkspace(listing[0]) then Some(0)
    else
      match FirstTemplateWorkspace(listing[1..])
      case None => None
      case Some(k) => Some(k + 1)
  }

  /** The expected template file is itself a `*.code-workspace` file whose
      name holds TOKEN, so the glob would find it too; preferring it matters
      only when other template workspaces sit beside it. */
  lemma TemplateBasenameQualifies()
    ensures IsTemplateWorkspace(WorkspaceBasename)
  {
    assert WorkspaceBasename[|WorkspaceBasename| - |WorkspaceSuffix|..] == WorkspaceSuffix;
    assert Token <= WorkspaceBasename;
  }

  // ---------------------------------------------------------------------------
  // rename_workspace_file
  // ---------------------------------------------------------------------------

  /** Why a file operation raised. */
  datatype FsError = InvalidName(name: string) | MissingFile(path: Path)

  /** `from.with_name(name)`: the same directory with another file name;
      a name holding a path separator is refused. */
  function WithName(from: Path, name: string): (r: Result<Path, FsError>)
    ensures r.Success? <==> from.name != [] && name != [] && '/' !in name && '\\' !in name
    ensures r.Success? ==> r.value.dir == from.dir && r.value.name == name
  {
    if from.name == [] || name == [] || '/' in name || '\\' in name then Failure(InvalidName(name))
    else Success(Path(from.dir, name))
  }

  // ---------------------------------------------------------------------------
  // The files the script reads, writes and renames
  // ---------------------------------------------------------------------------

  /** The project tree: the text of every file, by path. */
  class Disk {
    var files: map<Path, string>

    constructor (files: map<Path, string>)
      ensures this.files == files
    {
      this.files := files;
    }

    /** `replace_token_in_file`: report whether replacing token by
        replacement changes the file; write the new text unless dryRun. */
    method ReplaceTokenInFile(path: Path, token: string, replacement: string, dryRun: bool)
      returns (changed: bool)
      modifies this
      ensures changed <==> path in old(files) && Replace(old(files)[path], token, replacement) != old(files)[path]
      ensures changed <==> path in old(files) && Contains(old(files)[path], token) && replacement != token
      ensures files == if changed && !dryRun
                       then old(files)[path := Replace(old(files)[path], token, replacement)]
                       else old(files)
    {
      if path !in files {
        return false;
      }
      var original := files[path];
      var updated := Replace(original, token, replacement);
      ReplaceUnchangedIff(original, token, replacement);
      if updated != original {
        if !dryRun {
          files := files[path := updated];
        }
        changed := true;
      } else {
        changed := false;
      }
    }

    /** `update_pyproject_name_line`: report whether the rewrite changes the
        file; write the new text unless dryRun. */
    method UpdatePyprojectNameLine(path: Path, newName: string, dryRun: bool)
      returns (changed: bool)
      modifies this
      ensures changed <==> path in old(files) && RewriteNameLines(old(files)[path], newName) != old(files)[path]
      ensures '"' !in newName ==>
                (changed <==> path in old(files) && !NamesAlready(old(files)[path], true, newName))
      ensures files == if changed && !dryRun
                       then old(files)[path := RewriteNameLines(old(files)[path], newName)]
                       else old(files)
    {
      if path !in files {
        return false;
      }
      var text := files[path];
      var updated := RewriteNameLines(text, newName);
      if '"' !in newName {
        RewriteUnchangedIff(text, true, newName);
      }
      if updated != text {
        if !dryRun {
          files := files[path := updated];
        }
        changed := true;
      } else {
        changed := false;
      }
    }

    /** `find_or_expect_workspace_file`: the expected template file when it
        exists, otherwise the first listed `*.code-workspace` entry of the
        directory whose name holds TOKEN. `listing` is the directory's entries
        in the order the glob enumerates them. */
    method FindOrExpectWorkspaceFile(vscodeDir: string, expectedName: string, listing: seq<string>)
      returns (found: Option<Path>)
      requires forall n :: n in listing ==> Path(vscodeDir, n) in files
      ensures found.Some? ==> found.value in files
      ensures Path(vscodeDir, expectedName) in files ==> found == Some(Path(vscodeDir, expectedName))
      ensures Path(vscodeDir, expectedName) !in files ==>
                found == match FirstTemplateWorkspace(listing)
                         case Some(i) => Some(Path(vscodeDir, listing[i]))
                         case None => None
    {
      var candidate := Path(vscodeDir, expectedName);
      if candidate in files {
        return Some(candidate);
      }
      var i := 0;
      while i < |listing|
        invariant 0 <= i <= |listing|
        invariant forall j :: 0 <= j < i ==> !IsTemplateWorkspace(listing[j])
      {
        var name := listing[i];
        if EndsWith(name, WorkspaceSuffix) && Contains(name, Token) {
          return Some(Path(vscodeDir, name));
        }
        i := i + 1;
      }
      return None;
    }

    /** `rename_workspace_file`: move the workspace file to
        `<newProjectName>.code-workspace` in the same directory, replacing any
        file already there; nothing moves when the name is already right or
        in a dry run. */
    method RenameWorkspaceFile(oldPath: Path, newProjectName: string, dryRun: bool)
      returns (r: Result<Path, FsError>)
      modifies this
      ensures WithName(oldPath, newProjectName + WorkspaceSuffix).Failure? ==>
                r == WithName(oldPath, newProjectName + WorkspaceSuffix) && files == old(files)
      ensures WithName(oldPath, newProjectName + WorkspaceSuffix).Success? ==>
                var newPath := Path(oldPath.dir, newProjectName + WorkspaceSuffix);
                && (newPath == oldPath ==> r == Success(oldPath) && files == old(files))
                && (newPath != oldPath && dryRun ==> r == Success(newPath) && files == old(files))
                && (newPath != oldPath && !dryRun && oldPath in old(files) ==>
                      r == Success(newPath) && files == (old(files) - {oldPath})[newPath := old(files)[oldPath]])
                && (newPath != oldPath && !dryRun && oldPath !in old(files) ==>
                      r == Failure(MissingFile(oldPath)) && files == old(files) - {newPath})
    {
      var target := WithName(oldPath, newProjectName + WorkspaceSuffix);
      if target.Failure? {
        return target;
      }
      var newPath := target.value;
      if oldPath == newPath {
        return Success(oldPath);
      }
      if !dryRun {
        if newPath in files {
          files := files - {newPath};
        }
        if oldPath !in files {
          return Failure(MissingFile(oldPath));
        }
        files := (files - {oldPath})[newPath := files[oldPath]];
      }
      return Success(newPath);
    }
  }
}
