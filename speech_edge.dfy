/** The hotkey-to-speech pipeline of src/powertoys_text_to_speech_edge.py:
    clean up OCR text, wait for the clipboard to change, pick a voice by a
    case-insensitive substring, and queue texts for a speech worker that takes
    them in order. Clipboard reads are samples, the speech engine is a list of
    what it was handed. */
module SpeechEdge {
  import opened Wrappers
  import opened PyStr

  /** MIN_CHARS_TO_SPEAK: shorter texts are not spoken. */
  const MinCharsToSpeak := 3

  // ---------------------------------------------------------------------------
  // tidy_text
  // ---------------------------------------------------------------------------

  /** No whitespace character follows another. */
  predicate NoDoubleSpace(s: string) {
    forall i :: 0 < i < |s| ==> !(IsSpace(s[i - 1]) && IsSpace(s[i]))
  }

  /** `s.replace("\r\n", " ").replace("\n", " ").replace("\r", " ")`. */
  function NewlinesToSpaces(s: string): (r: string)
    ensures '\r' !in r && '\n' !in r
    ensures '\r' !in s && '\n' !in s ==> r == s
  {
    var a := Replace(s, "\r\n", " ");
    var b := Replace(a, "\n", " ");
    var c := Replace(b, "\r", " ");
    assert '\r' !in s && '\n' !in s ==> c == s by {
      if '\r' !in s && '\n' !in s {
        if Contains(s, "\r\n") {
          ContainsBounds(s, "\r\n");
        }
        ReplaceUnchangedIff(s, "\r\n", " ");
        ContainsCharIff(a, '\n');
        ReplaceUnchangedIff(a, "\n", " ");
        ContainsCharIff(b, '\r');
        ReplaceUnchangedIff(b, "\r", " ");
      }
    }
    c
  }

  /** `re.sub(r"\s{2,}", " ", s)`: every run of two or more whitespace
      characters becomes one space; a lone whitespace character stays as it is. */
  function CollapseRuns(s: string): (r: string)
    ensures NoDoubleSpace(r)
    ensures r == [] <==> s == []
    ensures r != [] ==> (IsSpace(r[0]) <==> IsSpace(s[0]))
    ensures forall c :: c in r ==> c in s || c == ' '
    ensures NoDoubleSpace(s) ==> r == s
    decreases |s|
  {
    if s == [] then []
    else if |s| >= 2 && IsSpace(s[0]) && IsSpace(s[1]) then
      var rest := LStrip(s);
      assert rest == [] || !IsSpace(rest[0]);
      [' '] + CollapseRuns(rest)
    else
      var rest := CollapseRuns(s[1..]);
      assert NoDoubleSpace(s) ==> NoDoubleSpace(s[1..]) by {
        if NoDoubleSpace(s) {
          forall i | 0 < i < |s[1..]| ensures !(IsSpace(s[1..][i - 1]) && IsSpace(s[1..][i])) {
            assert s[1..][i - 1] == s[i] && s[1..][i] == s[i + 1];
          }
        }
      }
      [s[0]] + rest
  }

  /** A maximal whitespace run at the front: two or more whitespace characters
      become exactly one space, a lone one is kept, and the rest is collapsed
      in turn. */
  lemma CollapseRunsRun(b: string, x: string)
    requires b != [] && AllSpace(b)
    requires x == [] || !IsSpace(x[0])
    ensures CollapseRuns(b + x) == (if |b| >= 2 then [' '] else b) + CollapseRuns(x)
  {
    var s := b + x;
    assert s[0] == b[0] && s[|b|..] == x;
    assert |b| < |s| ==> s[|b|] == x[0];
    if |b| >= 2 {
      assert s[1] == b[1];
      assert LeadingSpaces(s) == |b| by {
        assert forall k :: 0 <= k < |b| ==> s[k] == b[k];
        SkipSpacesUnique(s, 0, |b|);
      }
    } else {
      assert s[1..] == x && b == [s[0]];
    }
  }

  /** Stripping text that has no line break and no doubled whitespace keeps it so. */
  lemma StripKeepsClean(c: string)
    requires '\r' !in c && '\n' !in c && NoDoubleSpace(c)
    ensures var r := Strip(c); '\r' !in r && '\n' !in r && NoDoubleSpace(r)
  {
    var r := Strip(c);
    StripSlice(c);
    assert forall i :: 0 <= i < |r| ==> r[i] == c[LeadingSpaces(c) + i];
  }

  /** `tidy_text`: OCR text as one speakable line. */
  function TidyText(s: string): (r: string)
    ensures s == [] ==> r == []
    ensures '\r' !in r && '\n' !in r
    ensures r == [] || (!IsSpace(r[0]) && !IsSpace(r[|r| - 1]))
    ensures NoDoubleSpace(r)
  {
    if s == [] then []
    else
      var c := CollapseRuns(NewlinesToSpaces(Strip(s)));
      assert '\r' !in c && '\n' !in c;
      StripKeepsClean(c);
      Strip(c)
  }

  /** Tidying tidied text changes nothing. */
  lemma TidyTextIdempotent(s: string)
    ensures TidyText(TidyText(s)) == TidyText(s)
  {
    var t := TidyText(s);
    if t != [] {
      assert Strip(t) == t;
      assert NewlinesToSpaces(t) == t;
      assert CollapseRuns(t) == t;
    }
  }

  /** The non-whitespace characters of s, in order. */
  function NonSpace(s: string): string
    decreases |s|
  {
    if s == [] then [] else (if IsSpace(s[0]) then [] else [s[0]]) + NonSpace(s[1..])
  }

  lemma {:induction false} NonSpaceAppend(a: string, b: string)
    ensures NonSpace(a + b) == NonSpace(a) + NonSpace(b)
    decreases |a|
  {
    if a != [] {
      assert (a + b)[0] == a[0];
      assert (a + b)[1..] == a[1..] + b;
      NonSpaceAppend(a[1..], b);
    } else {
      assert a + b == b;
    }
  }

  lemma {:induction false} NonSpaceOfBlank(s: string)
    requires AllSpace(s)
    ensures NonSpace(s) == []
    decreases |s|
  {
    if s != [] {
      NonSpaceOfBlank(s[1..]);
    }
  }

  /** Replacing blanks by blanks keeps the text. */
  lemma {:induction false} ReplaceKeepsNonSpace(s: string, tok: string, rep: string)
    requires tok != [] && AllSpace(tok) && AllSpace(rep)
    ensures NonSpace(Replace(s, tok, rep)) == NonSpace(s)
    decreases |s|
  {
    if s == [] {
    } else if tok <= s {
      var rest := s[|tok|..];
      assert s == tok + rest;
      ReplaceKeepsNonSpace(rest, tok, rep);
      NonSpaceAppend(rep, Replace(rest, tok, rep));
      NonSpaceAppend(tok, rest);
      NonSpaceOfBlank(rep);
      NonSpaceOfBlank(tok);
    } else {
      ReplaceKeepsNonSpace(s[1..], tok, rep);
      NonSpaceAppend([s[0]], Replace(s[1..], tok, rep));
    }
  }

  /** Collapsing whitespace runs keeps the text. */
  lemma {:induction false} CollapseRunsKeepsNonSpace(s: string)
    ensures NonSpace(CollapseRuns(s)) == NonSpace(s)
    decreases |s|
  {
    if s == [] {
    } else if |s| >= 2 && IsSpace(s[0]) && IsSpace(s[1]) {
      var n := LeadingSpaces(s);
      var rest := s[n..];
      assert s == s[..n] + rest;
      CollapseRunsKeepsNonSpace(rest);
      NonSpaceAppend([' '], CollapseRuns(rest));
      NonSpaceAppend(s[..n], rest);
      NonSpaceOfBlank(s[..n]);
    } else {
      CollapseRunsKeepsNonSpace(s[1..]);
      NonSpaceAppend([s[0]], CollapseRuns(s[1..]));
    }
  }

  /** Stripping keeps the text. */
  lemma StripKeepsNonSpace(s: string)
    ensures NonSpace(Strip(s)) == NonSpace(s)
  {
    var r := Strip(s);
    var k := LeadingSpaces(s);
    StripSlice(s);
    assert s == s[..k] + (r + s[k + |r|..]);
    NonSpaceAppend(s[..k], r + s[k + |r|..]);
    NonSpaceAppend(r, s[k + |r|..]);
    NonSpaceOfBlank(s[..k]);
    NonSpaceOfBlank(s[k + |r|..]);
  }

  /** `tidy_text` only ever touches whitespace: the other characters come
      out exactly as they went in, in the same order. */
  lemma TidyTextKeepsNonSpace(s: string)
    ensures NonSpace(TidyText(s)) == NonSpace(s)
  {
    if s != [] {
      var a := Strip(s);
      var b := Replace(a, "\r\n", " ");
      var c := Replace(b, "\n", " ");
      var d := Replace(c, "\r", " ");
      StripKeepsNonSpace(s);
      ReplaceKeepsNonSpace(a, "\r\n", " ");
      ReplaceKeepsNonSpace(b, "\n", " ");
      ReplaceKeepsNonSpace(c, "\r", " ");
      CollapseRunsKeepsNonSpace(d);
      StripKeepsNonSpace(CollapseRuns(d));
    }
  }

  // ---------------------------------------------------------------------------
  // What tidy_text does to the gaps between words
  // ---------------------------------------------------------------------------

  /** One pass over s in which a `\r\n` pair, a lone `\r` and a lone `\n`
      each become one space. */
  function LineBreaksToSpaces(s: string): (r: string)
    ensures r == [] <==> s == []
    ensures r != [] ==> (IsSpace(r[0]) <==> IsSpace(s[0]))
    decreases |s|
  {
    if s == [] then []
    else if |s| >= 2 && s[0] == '\r' && s[1] == '\n' then [' '] + LineBreaksToSpaces(s[2..])
    else if s[0] == '\r' || s[0] == '\n' then [' '] + LineBreaksToSpaces(s[1..])
    else [s[0]] + LineBreaksToSpaces(s[1..])
  }

  /** Replacing a one-character token, one character at a time. */
  lemma ReplaceCharCons(c: char, x: string, d: char, rep: string)
    ensures Replace([c] + x, [d], rep) == (if c == d then rep else [c]) + Replace(x, [d], rep)
  {
    assert ([c] + x)[1..] == x;
  }

  /** Replacing `\r\n` in a text that does not start with it keeps its first character. */
  lemma ReplaceCrLfCons(c: char, x: string, rep: string)
    requires c != '\r' || x == [] || x[0] != '\n'
    ensures Replace([c] + x, "\r\n", rep) == [c] + Replace(x, "\r\n", rep)
  {
    var y := [c] + x;
    assert y[1..] == x;
    assert y[0] == c && (x != [] ==> y[1] == x[0]);
    assert "\r\n"[0] == '\r' && "\r\n"[1] == '\n';
    assert !("\r\n" <= y);
  }

  /** The three `replace` calls of `tidy_text` turn each line break, `\r\n`
      pair or lone `\r` or `\n`, into exactly one space and keep every other
      character. */
  lemma {:induction false} NewlinesToSpacesOnePass(s: string)
    ensures NewlinesToSpaces(s) == LineBreaksToSpaces(s)
    decreases |s|
  {
    if s != [] {
      var t := s[1..];
      assert s == [s[0]] + t;
      if |s| >= 2 && s[0] == '\r' && s[1] == '\n' {
        var u := s[2..];
        NewlinesToSpacesOnePass(u);
        assert s == "\r\n" + u;
        assert Replace(s, "\r\n", " ") == " " + Replace(u, "\r\n", " ");
        ReplaceCharCons(' ', Replace(u, "\r\n", " "), '\n', " ");
        ReplaceCharCons(' ', Replace(Replace(u, "\r\n", " "), "\n", " "), '\r', " ");
      } else {
        NewlinesToSpacesOnePass(t);
        ReplaceCrLfCons(s[0], t, " ");
        ReplaceCharCons(s[0], Replace(t, "\r\n", " "), '\n', " ");
        var c := if s[0] == '\n' then ' ' else s[0];
        ReplaceCharCons(c, Replace(Replace(t, "\r\n", " "), "\n", " "), '\r', " ");
      }
    }
  }

  /** The scan that writes every maximal run of whitespace as a single space,
      left to right; inGap says the scan is inside a run whose space has
      already been written. */
  function SqueezeFrom(s: string, inGap: bool): string
    decreases |s|
  {
    if s == [] then []
    else if !IsSpace(s[0]) then [s[0]] + SqueezeFrom(s[1..], false)
    else if inGap then SqueezeFrom(s[1..], true)
    else [' '] + SqueezeFrom(s[1..], true)
  }

  /** s with every maximal run of whitespace written as a single space: the
      words of s, in order, and where the gaps between them are. */
  function Squeeze(s: string): string {
    SqueezeFrom(s, false)
  }

  /** Whether the scan is inside a whitespace run after reading a, having
      started in state inGap. */
  function EndsInGap(a: string, inGap: bool): bool {
    if a == [] then inGap else IsSpace(a[|a| - 1])
  }

  /** One step of the scan on a text written as its first character and the rest. */
  lemma SqueezeStep(c: char, x: string, inGap: bool)
    ensures SqueezeFrom([c] + x, inGap) ==
            if !IsSpace(c) then [c] + SqueezeFrom(x, false)
            else if inGap then SqueezeFrom(x, true)
            else [' '] + SqueezeFrom(x, true)
  {
    assert ([c] + x)[0] == c && ([c] + x)[1..] == x;
  }

  /** The state the scan starts in makes no difference before a word. */
  lemma SqueezeBeforeWord(b: string, inGap: bool)
    requires b == [] || !IsSpace(b[0])
    ensures SqueezeFrom(b, inGap) == Squeeze(b)
  {
  }

  /** Whitespace alone squeezes to one space, or to nothing inside a run. */
  lemma {:induction false} SqueezeFromBlank(s: string, inGap: bool)
    requires AllSpace(s)
    ensures SqueezeFrom(s, inGap) == if s == [] || inGap then [] else [' ']
    decreases |s|
  {
    if s != [] {
      SqueezeFromBlank(s[1..], true);
    }
  }

  /** A squeezed text starts with whitespace exactly when the text does. */
  lemma SqueezeHead(s: string)
    ensures Squeeze(s) == [] <==> s == []
    ensures s != [] ==> (IsSpace(Squeeze(s)[0]) <==> IsSpace(s[0]))
  {
  }

  /** Whitespace squeezes to at most one space. */
  lemma SqueezeBlank(s: string)
    requires AllSpace(s)
    ensures Squeeze(s) == [] || Squeeze(s) == [' ']
  {
    SqueezeFromBlank(s, false);
  }

  /** The scan over a + b is the scan over a followed by the scan over b from
      the state a leaves it in. */
  lemma {:induction false} SqueezeFromAppend(a: string, b: string, inGap: bool)
    ensures SqueezeFrom(a + b, inGap) == SqueezeFrom(a, inGap) + SqueezeFrom(b, EndsInGap(a, inGap))
    decreases |a|
  {
    if |a| == 0 {
      assert a + b == b;
    } else {
      var c, a1 := a[0], a[1..];
      assert (a + b)[0] == c && (a + b)[1..] == a1 + b;
      assert |a1| > 0 ==> a1[|a1| - 1] == a[|a| - 1];
      var g := IsSpace(c);
      var sa1, sb := SqueezeFrom(a1, g), SqueezeFrom(b, EndsInGap(a1, g));
      assert SqueezeFrom(a1 + b, g) == sa1 + sb by {
        SqueezeFromAppend(a1, b, g);
      }
      if !g {
        Regroup(c, sa1, [], sb);
      } else if !inGap {
        Regroup(' ', sa1, [], sb);
      }
    }
  }

  /** Squeezing works piece by piece where the pieces do not meet inside a
      whitespace run. */
  lemma SqueezeAppend(a: string, b: string)
    requires a == [] || b == [] || !IsSpace(a[|a| - 1]) || !IsSpace(b[0])
    ensures Squeeze(a + b) == Squeeze(a) + Squeeze(b)
  {
    SqueezeFromAppend(a, b, false);
    if EndsInGap(a, false) {
      SqueezeBeforeWord(b, true);
    }
  }

  /** Turning line breaks into spaces keeps the words and the gaps, from any
      state of the scan. */
  lemma {:induction false} LineBreaksKeepGaps(s: string, inGap: bool)
    ensures SqueezeFrom(LineBreaksToSpaces(s), inGap) == SqueezeFrom(s, inGap)
    decreases |s|
  {
    if s != [] {
      var c, t1 := s[0], s[1..];
      var n := if |s| >= 2 && c == '\r' && s[1] == '\n' then 2 else 1;
      var t := s[n..];
      assert n == 2 ==> t1[0] == '\n' && t1[1..] == t;
      var d := if c == '\r' || c == '\n' then ' ' else c;
      var r, l := LineBreaksToSpaces(s), LineBreaksToSpaces(t);
      assert r == [d] + l;
      assert r[0] == d && r[1..] == l;
      assert IsSpace(d) == IsSpace(c);
      LineBreaksKeepGaps(t, IsSpace(c));
    }
  }

  /** Collapsing whitespace runs keeps the words and the gaps, from any state
      of the scan. */
  lemma {:induction false} CollapseRunsKeepsGaps(s: string, inGap: bool)
    ensures SqueezeFrom(CollapseRuns(s), inGap) == SqueezeFrom(s, inGap)
    decreases |s|
  {
    if s == [] {
    } else if |s| >= 2 && IsSpace(s[0]) && IsSpace(s[1]) {
      var n := LeadingSpaces(s);
      var rest := s[n..];
      var run := s[..n];
      assert s == run + rest;
      assert |run| >= 2 && run[|run| - 1] == s[n - 1];
      assert CollapseRuns(s) == [' '] + CollapseRuns(rest);
      SqueezeFromAppend(run, rest, inGap);
      SqueezeFromBlank(run, inGap);
      SqueezeStep(' ', CollapseRuns(rest), inGap);
      CollapseRunsKeepsGaps(rest, true);
    } else {
      var c, t := s[0], s[1..];
      assert s == [c] + t;
      assert CollapseRuns(s) == [c] + CollapseRuns(t);
      SqueezeStep(c, CollapseRuns(t), inGap);
      SqueezeStep(c, t, inGap);
      CollapseRunsKeepsGaps(t, IsSpace(c));
    }
  }

  /** Text with whitespace only around a word strips to that word. */
  lemma StripAround(a: string, c: string, b: string)
    requires AllSpace(a) && AllSpace(b)
    requires c != [] && !IsSpace(c[0]) && !IsSpace(c[|c| - 1])
    ensures Strip(a + c + b) == c
  {
    var z := a + c + b;
    var n := |a| + |c|;
    assert z[..|a|] == a && z[|a|..n] == c && z[n..] == b;
    assert LeadingSpaces(z) == |a| by {
      assert forall i :: 0 <= i < |a| ==> z[i] == z[..|a|][i];
      assert z[|a|] == c[0];
      SkipSpacesUnique(z, 0, |a|);
    }
    assert TextEnd(z) == n by {
      assert forall i :: n <= i < |z| ==> z[i] == z[n..][i - n];
      assert z[n - 1] == c[|c| - 1];
      TextEndUnique(z, n);
    }
  }

  /** A word squeezes to a word: non-empty, with no whitespace at either end. */
  lemma SqueezeWord(r: string)
    requires r != [] && !IsSpace(r[0]) && !IsSpace(r[|r| - 1])
    ensures var sr := Squeeze(r); sr != [] && !IsSpace(sr[0]) && !IsSpace(sr[|sr| - 1])
  {
    var l, front := r[|r| - 1], r[..|r| - 1];
    assert r == front + [l];
    assert [l] + [] == [l];
    SqueezeStep(l, [], false);
    SqueezeAppend(front, [l]);
    SqueezeHead(r);
  }

  /** Squeezing text that is a word with whitespace around it. */
  lemma SqueezeAround(lead: string, r: string, trail: string)
    requires AllSpace(lead) && AllSpace(trail)
    requires r != [] && !IsSpace(r[0]) && !IsSpace(r[|r| - 1])
    ensures Squeeze(lead + r + trail) == Squeeze(lead) + Squeeze(r) + Squeeze(trail)
  {
    assert lead + r + trail == lead + (r + trail);
    SqueezeAppend(lead, r + trail);
    SqueezeAppend(r, trail);
  }

  /** Squeezed, a word with whitespace around it strips to the squeezed word. */
  lemma SqueezeStripAround(lead: string, r: string, trail: string)
    requires AllSpace(lead) && AllSpace(trail)
    requires r != [] && !IsSpace(r[0]) && !IsSpace(r[|r| - 1])
    ensures Strip(Squeeze(lead + r + trail)) == Squeeze(r)
  {
    var sl, sr, st := Squeeze(lead), Squeeze(r), Squeeze(trail);
    assert Squeeze(lead + r + trail) == sl + sr + st by {
      SqueezeAround(lead, r, trail);
    }
    assert AllSpace(sl) && AllSpace(st) by {
      SqueezeBlank(lead);
      SqueezeBlank(trail);
    }
    assert sr != [] && !IsSpace(sr[0]) && !IsSpace(sr[|sr| - 1]) by {
      SqueezeWord(r);
    }
    StripAround(sl, sr, st);
  }

  /** Stripping and squeezing commute. */
  lemma StripSqueeze(x: string)
    ensures Squeeze(Strip(x)) == Strip(Squeeze(x))
  {
    var k := LeadingSpaces(x);
    var r := Strip(x);
    StripSlice(x);
    if r == [] {
      SqueezeBlank(x);
    } else {
      var lead, trail := x[..k], x[k + |r|..];
      assert x == lead + r + trail;
      SqueezeStripAround(lead, r, trail);
    }
  }

  /** `tidy_text` keeps the words of s in order and puts exactly one
      whitespace character between each two of them: squeezed, the result is
      s squeezed and stripped, so no gap is lost and none is added. */
  lemma TidyTextKeepsGaps(s: string)
    ensures Squeeze(TidyText(s)) == Strip(Squeeze(s))
  {
    if s != [] {
      var a := Strip(s);
      var n := NewlinesToSpaces(a);
      var c := CollapseRuns(n);
      NewlinesToSpacesOnePass(a);
      LineBreaksKeepGaps(a, false);
      CollapseRunsKeepsGaps(n, false);
      StripSqueeze(c);
      StripSqueeze(s);
      assert Strip(Strip(Squeeze(s))) == Strip(Squeeze(s));
    }
  }

  // ---------------------------------------------------------------------------
  // wait_for_clip_change, over the clipboard reads made before the timeout
  // ---------------------------------------------------------------------------

  /** A clipboard read that ends the wait: some text, non-empty, not the baseline. */
  predicate IsChange(sample: Option<string>, baseline: string) {
    sample.Some? && sample.value != [] && sample.value != baseline
  }

  /** The first read among samples that ends the wait, if any. */
  function FirstChange(baseline: string, samples: seq<Option<string>>): Option<string>
    decreases |samples|
  {
    if samples == [] then None
    else if IsChange(samples[0], baseline) then samples[0]
    else FirstChange(baseline, samples[1..])
  }

  /** What FirstChange returns is a change, and it is one of the samples. */
  lemma {:induction false} FirstChangeIsChange(baseline: string, samples: seq<Option<string>>)
    requires FirstChange(baseline, samples).Some?
    ensures IsChange(FirstChange(baseline, samples), baseline)
    ensures FirstChange(baseline, samples) in samples
    decreases |samples|
  {
    if !IsChange(samples[0], baseline) {
      FirstChangeIsChange(baseline, samples[1..]);
    }
  }

  /** The read at index i is returned when it is a change and no earlier read was. */
  lemma {:induction false} FirstChangeAt(baseline: string, samples: seq<Option<string>>, i: nat)
    requires i < |samples| && IsChange(samples[i], baseline)
    requires forall j :: 0 <= j < i ==> !IsChange(samples[j], baseline)
    ensures FirstChange(baseline, samples) == samples[i]
    decreases i
  {
    if i > 0 {
      FirstChangeAt(baseline, samples[1..], i - 1);
    }
  }

  /** Nothing is returned exactly when no read in the window was a change. */
  lemma {:induction false} FirstChangeNoneIff(baseline: string, samples: seq<Option<string>>)
    ensures FirstChange(baseline, samples).None? <==>
            forall j :: 0 <= j < |samples| ==> !IsChange(samples[j], baseline)
    decreases |samples|
  {
    if samples != [] {
      FirstChangeNoneIff(baseline, samples[1..]);
      assert forall j :: 1 <= j < |samples| ==> samples[j] == samples[1..][j - 1];
    }
  }

  /** `wait_for_clip_change`: poll the reads in order and return the first change. */
  method WaitForClipChange(baseline: string, samples: seq<Option<string>>) returns (r: Option<string>)
    ensures r == FirstChange(baseline, samples)
  {
    var i := 0;
    while i < |samples|
      invariant 0 <= i <= |samples|
      invariant FirstChange(baseline, samples[i..]) == FirstChange(baseline, samples)
    {
      var current := samples[i];
      if current.Some? && current.value != [] && current.value != baseline {
        return current;
      }
      assert samples[i..][1..] == samples[i + 1..];
      i := i + 1;
    }
    return None;
  }

  // ---------------------------------------------------------------------------
  // Voice selection in SapiNaturalSpeaker._run
  // ---------------------------------------------------------------------------

  /** Whether a voice's description contains the (already lower-cased) match string. */
  predicate DescribesVoice(description: string, matchText: string) {
    Contains(Lower(description), matchText)
  }

  /** The first voice whose lower-cased description contains matchText; none
      for an empty matchText, which leaves the engine's default voice. */
  function FirstMatch(matchText: string, descriptions: seq<string>): (r: Option<nat>)
    ensures r.Some? ==> matchText != [] && r.value < |descriptions|
    ensures r.Some? ==> DescribesVoice(descriptions[r.value], matchText)
    ensures r.Some? ==> forall j :: 0 <= j < r.value ==> !DescribesVoice(descriptions[j], matchText)
    ensures r.None? ==> matchText == [] || forall j :: 0 <= j < |descriptions| ==> !DescribesVoice(descriptions[j], matchText)
    decreases |descriptions|
  {
    if matchText == [] || descriptions == [] then None
    else if DescribesVoice(descriptions[0], matchText) then Some(0)
    else
      match FirstMatch(matchText, descriptions[1..])
      case None => None
      case Some(k) => Some(k + 1)
  }

  /** Texts long enough to be queued. */
  predicate Speakable(text: string) {
    text != [] && |text| >= MinCharsToSpeak
  }

  // ---------------------------------------------------------------------------
  // SapiNaturalSpeaker
  // ---------------------------------------------------------------------------

  /** The speech worker: a queue of pending utterances and the lower-cased
      voice match string. `submitted` and `said` record, for the proof only,
      what was ever queued and what the engine was handed. */
  class Speaker {
    var queue: seq<string>
    const matchText: string
    ghost var submitted: seq<string>
    ghost var said: seq<string>

    /** First in, first out: what was handed to the engine followed by what
        still waits is exactly what was queued, in order. */
    ghost predicate Valid()
      reads this
    {
      submitted == said + queue
    }

    /** `SapiNaturalSpeaker.__init__`: an empty queue and the lower-cased match string. */
    constructor (naturalMatch: string)
      ensures Valid()
      ensures queue == [] && submitted == [] && said == []
      ensures matchText == Lower(naturalMatch)
    {
      queue := [];
      matchText := Lower(naturalMatch);
      submitted := [];
      said := [];
    }

    /** `speak`: queue text when it is long enough, otherwise do nothing. */
    method Speak(text: string)
      requires Valid()
      modifies this
      ensures Valid()
      ensures queue == old(queue) + (if Speakable(text) then [text] else [])
      ensures submitted == old(submitted) + (if Speakable(text) then [text] else [])
      ensures said == old(said)
    {
      if text != [] && |text| >= MinCharsToSpeak {
        queue := queue + [text];
        submitted := submitted + [text];
      }
    }

    /** One `self._q.get(timeout=...)` of the worker loop: the oldest pending
        text, which is handed to the engine, or nothing when the queue is empty. */
    method Take() returns (next: Option<string>)
      requires Valid()
      modifies this
      ensures Valid()
      ensures old(queue) == [] ==> next == None && queue == [] && said == old(said)
      ensures old(queue) != [] ==>
                && next == Some(old(queue)[0])
                && queue == old(queue)[1..]
                && said == old(said) + [old(queue)[0]]
      ensures submitted == old(submitted)
    {
      if queue == [] {
        next := None;
      } else {
        next := Some(queue[0]);
        said := said + [queue[0]];
        queue := queue[1..];
      }
    }

    /** The worker loop run until the queue is empty: every pending text is
        handed to the engine once, in the order it was queued. */
    method Drain() returns (spoken: seq<string>)
      requires Valid()
      modifies this
      ensures Valid()
      ensures spoken == old(queue) && queue == []
      ensures said == old(said) + old(queue) && submitted == old(submitted)
    {
      spoken := [];
      while queue != []
        invariant Valid()
        invariant old(queue) == spoken + queue
        invariant said == old(said) + spoken && submitted == old(submitted)
        decreases |queue|
      {
        var next := Take();
        spoken := spoken + [next.value];
      }
    }

    /** The selection loop at the start of `_run`: the index of the first voice
        whose description matches, or none to keep the default voice. */
    method SelectVoice(descriptions: seq<string>) returns (selected: Option<nat>)
      ensures selected == FirstMatch(matchText, descriptions)
    {
      selected := None;
      for i := 0 to |descriptions|
        invariant selected.None?
        invariant matchText != [] ==> forall j :: 0 <= j < i ==> !DescribesVoice(descriptions[j], matchText)
      {
        if matchText != [] && Contains(Lower(descriptions[i]), matchText) {
          selected := Some(i);
          break;
        }
      }
    }
  }

  // ---------------------------------------------------------------------------
  // on_hotkey
  // ---------------------------------------------------------------------------

  /** The clipboard text before the wait (`get_clipboard_text() or ""`). */
  function Baseline(initial: Option<string>): string {
    if initial.Some? then initial.value else ""
  }

  /** What one hotkey press hands to the speaker, if anything: the tidied
      first change, when it is long enough. */
  function Capture(initial: Option<string>, samples: seq<Option<string>>): (r: Option<string>)
    ensures r.Some? <==>
              FirstChange(Baseline(initial), samples).Some? &&
              Speakable(TidyText(FirstChange(Baseline(initial), samples).value))
    ensures r.Some? ==> r.value == TidyText(FirstChange(Baseline(initial), samples).value)
    ensures r.Some? ==> Speakable(r.value)
    ensures r.Some? ==> exists v :: Some(v) in samples && v != [] && v != Baseline(initial) && r.value == TidyText(v)
  {
    match FirstChange(Baseline(initial), samples)
    case None => None
    case Some(text) =>
      var cleaned := TidyText(text);
      if cleaned != [] && |cleaned| >= MinCharsToSpeak then
        FirstChangeIsChange(Baseline(initial), samples);
        assert Some(text) in samples && text != [] && text != Baseline(initial) && cleaned == TidyText(text);
        Some(cleaned)
      else None
  }

  /** Only the first change counts: when it tidies to fewer than three
      characters nothing is spoken, even if a later read would have been long
      enough. */
  lemma ShortFirstChangeSilences()
    ensures Capture(None, [Some("ab"), Some("hello")]) == None
  {
    var samples := [Some("ab"), Some("hello")];
    assert IsChange(samples[0], "");
    assert FirstChange("", samples) == Some("ab");
    assert Strip("ab") == "ab";
    assert NewlinesToSpaces("ab") == "ab";
    assert CollapseRuns("ab") == "ab";
    assert TidyText("ab") == "ab";
  }

  /** `on_hotkey`: take the baseline, wait for a change, tidy it, and queue it
      when it is long enough. The result is the text queued. */
  method OnHotkey(speaker: Speaker, initial: Option<string>, samples: seq<Option<string>>)
    returns (spoken: Option<string>)
    requires speaker.Valid()
    modifies speaker
    ensures speaker.Valid()
    ensures spoken == Capture(initial, samples)
    ensures speaker.queue == old(speaker.queue) + (if spoken.Some? then [spoken.value] else [])
    ensures speaker.submitted == old(speaker.submitted) + (if spoken.Some? then [spoken.value] else [])
    ensures speaker.said == old(speaker.said)
  {
    var baseline := if initial.Some? then initial.value else "";
    var newText := WaitForClipChange(baseline, samples);
    spoken := None;
    if newText.Some? && newText.value != [] {
      var cleaned := TidyText(newText.value);
      if cleaned != [] && |cleaned| >= MinCharsToSpeak {
        spoken := Some(cleaned);
        speaker.Speak(cleaned);
      }
    }
  }
}
