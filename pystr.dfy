/** The Python `str` builtins that both scripts lean on: the whitespace test
    shared by `str.strip()` and the regex class `\s`, stripping, lower-casing,
    the substring test `t in s`, and `s.replace(old, new)`. */
module PyStr {

  /** Python's whitespace test (`str.isspace`). CPython's `str.strip()` and the
      regex class `\s` of a `str` pattern use the same table. */
  predicate IsSpace(c: char) {
    || '\t' <= c <= '\r'
    || '\U{1C}' <= c <= ' '
    || c == '\U{85}' || c == '\U{A0}' || c == '\U{1680}'
    || '\U{2000}' <= c <= '\U{200A}'
    || c == '\U{2028}' || c == '\U{2029}' || c == '\U{202F}' || c == '\U{205F}' || c == '\U{3000}'
  }

  /** Every character of s is whitespace. */
  predicate AllSpace(s: string) {
    forall i :: 0 <= i < |s| ==> IsSpace(s[i])
  }

  /** The first index at or after i that does not hold whitespace (|s| if none). */
  function SkipSpaces(s: string, i: nat): (j: nat)
    requires i <= |s|
    ensures i <= j <= |s|
    ensures j < |s| ==> !IsSpace(s[j])
    decreases |s| - i
  {
    if i < |s| && IsSpace(s[i]) then SkipSpaces(s, i + 1) else i
  }

  /** Everything SkipSpaces passes over is whitespace. */
  lemma {:induction false} SkipSpacesBlank(s: string, i: nat)
    requires i <= |s|
    ensures forall k :: i <= k < SkipSpaces(s, i) ==> IsSpace(s[k])
    decreases |s| - i
  {
    if i < |s| && IsSpace(s[i]) {
      SkipSpacesBlank(s, i + 1);
    }
  }

  /** The two properties that pin down SkipSpaces: blanks from i up to j, none at j. */
  lemma {:induction false} SkipSpacesUnique(s: string, i: nat, j: nat)
    requires i <= j <= |s|
    requires forall k :: i <= k < j ==> IsSpace(s[k])
    requires j < |s| ==> !IsSpace(s[j])
    ensures SkipSpaces(s, i) == j
    decreases j - i
  {
    if i < j {
      SkipSpacesUnique(s, i + 1, j);
    }
  }

  /** How many whitespace characters s starts with. */
  function LeadingSpaces(s: string): (n: nat)
    ensures n <= |s|
    ensures forall i :: 0 <= i < n ==> IsSpace(s[i])
    ensures n < |s| ==> !IsSpace(s[n])
  {
    SkipSpacesBlank(s, 0);
    SkipSpaces(s, 0)
  }

  /** Where the text of s ends: the length of s without its trailing whitespace. */
  function TextEnd(s: string): (n: nat)
    ensures n <= |s|
    ensures forall i :: n <= i < |s| ==> IsSpace(s[i])
    ensures n > 0 ==> !IsSpace(s[n - 1])
    decreases |s|
  {
    if s != [] && IsSpace(s[|s| - 1]) then TextEnd(s[..|s| - 1]) else |s|
  }

  /** The two properties that pin down TextEnd: whitespace from n on, none just before n. */
  lemma {:induction false} TextEndUnique(s: string, n: nat)
    requires n <= |s|
    requires forall i :: n <= i < |s| ==> IsSpace(s[i])
    requires n > 0 ==> !IsSpace(s[n - 1])
    ensures TextEnd(s) == n
    decreases |s|
  {
    if n < |s| {
      var s' := s[..|s| - 1];
      assert forall i :: n <= i < |s'| ==> s'[i] == s[i];
      assert n > 0 ==> s'[n - 1] == s[n - 1];
      TextEndUnique(s', n);
    }
  }

  /** `s.lstrip()`: s without its leading whitespace. */
  function LStrip(s: string): string {
    s[LeadingSpaces(s)..]
  }

  /** `s.strip()`: the slice of s between its leading and its trailing whitespace. */
  function Strip(s: string): (r: string)
    ensures r == [] <==> AllSpace(s)
    ensures r != [] ==> !IsSpace(r[0]) && !IsSpace(r[|r| - 1])
    ensures (s == [] || (!IsSpace(s[0]) && !IsSpace(s[|s| - 1]))) ==> r == s
  {
    var k := LeadingSpaces(s);
    var e := TextEnd(s);
    if k == |s| then []
    else
      assert k < e;
      s[k..e]
  }

  /** What strip removes: the whitespace before and after the slice it keeps. */
  lemma StripSlice(s: string)
    ensures var k := LeadingSpaces(s); var r := Strip(s);
            k + |r| <= |s| && r == s[k..k + |r|] && AllSpace(s[..k]) && AllSpace(s[k + |r|..])
  {
    var k := LeadingSpaces(s);
    var e := TextEnd(s);
    if k < |s| {
      assert k < e;
    }
  }

  /** ASCII lower-casing of one character. */
  function LowerChar(c: char): (d: char)
    ensures !('A' <= d <= 'Z')
    ensures 'a' <= c <= 'z' || ('A' <= c <= 'Z') == (c != d)
  {
    if 'A' <= c <= 'Z' then (c as int + 32) as char else c
  }

  /** `s.lower()`, on the ASCII letters. */
  function Lower(s: string): (r: string)
    ensures |r| == |s|
    ensures forall i :: 0 <= i < |r| ==> r[i] == LowerChar(s[i])
  {
    seq(|s|, i requires 0 <= i < |s| => LowerChar(s[i]))
  }

  /** Python's substring test `t in s` (true for the empty t). */
  predicate Contains(s: string, t: string)
    decreases |s|
  {
    t <= s || (s != [] && Contains(s[1..], t))
  }

  /** A string that contains t is at least as long as t and holds t's first character. */
  lemma {:induction false} ContainsBounds(s: string, t: string)
    requires Contains(s, t)
    ensures |t| <= |s|
    ensures t != [] ==> t[0] in s
    decreases |s|
  {
    if !(t <= s) {
      ContainsBounds(s[1..], t);
    }
  }

  /** For a one-character t, `t in s` is membership of that character. */
  lemma {:induction false} ContainsCharIff(s: string, c: char)
    ensures Contains(s, [c]) <==> c in s
    decreases |s|
  {
    if s != [] {
      ContainsCharIff(s[1..], c);
      assert c in s <==> s[0] == c || c in s[1..];
    }
  }

  /** `s.replace("", rep)`: rep before every character and once more at the end. */
  function Interleave(s: string, rep: string): (r: string)
    ensures |r| == |s| + (|s| + 1) * |rep|
    ensures forall c :: c in r ==> c in s || c in rep
    ensures rep == [] ==> r == s
    decreases |s|
  {
    if s == [] then rep else rep + [s[0]] + Interleave(s[1..], rep)
  }

  /** `s.replace(tok, rep)`: every occurrence of tok, found left to right and
      without overlap, is replaced by rep; an empty tok matches before every
      character and at the end. */
  function Replace(s: string, tok: string, rep: string): (r: string)
    ensures forall c :: c in r ==> c in s || c in rep
    ensures |tok| == 1 && tok[0] !in rep ==> tok[0] !in r
    decreases |s|
  {
    if tok == [] then Interleave(s, rep)
    else if s == [] then []
    else if tok <= s then rep + Replace(s[|tok|..], tok, rep)
    else [s[0]] + Replace(s[1..], tok, rep)
  }

  /** Where tok does not start s, replace keeps the first character of s. */
  lemma ReplaceKeepsHead(s: string, tok: string, rep: string)
    requires s != [] && tok != [] && !(tok <= s)
    ensures Replace(s, tok, rep) == [s[0]] + Replace(s[1..], tok, rep)
  {
  }

  /** No occurrence of tok begins in a non-empty a: then none begins at its
      first character, nor anywhere in the rest of a. */
  lemma NoOccurrenceStep(a: string, tok: string, b: string)
    requires a != [] && tok != []
    requires !Contains(a + tok[..|tok| - 1], tok)
    ensures !(tok <= a + tok + b)
    ensures !Contains(a[1..] + tok[..|tok| - 1], tok)
  {
    var x := a + tok[..|tok| - 1];
    assert (a + tok + b)[..|tok|] == x[..|tok|];
    assert x[1..] == a[1..] + tok[..|tok| - 1];
  }

  /** The leftmost occurrence of a non-empty tok is replaced by rep: the
      text a before it, in which no occurrence of tok begins, is kept, and the
      scan goes on right after it, so occurrences never overlap. */
  lemma {:induction false} ReplaceLeftmost(a: string, tok: string, b: string, rep: string)
    requires tok != []
    requires !Contains(a + tok[..|tok| - 1], tok)
    ensures Replace(a + tok + b, tok, rep) == a + rep + Replace(b, tok, rep)
    decreases |a|
  {
    var s := a + tok + b;
    if |a| == 0 {
      assert s == tok + b;
      assert s[|tok|..] == b;
    } else {
      var c, a1 := a[0], a[1..];
      assert a == [c] + a1;
      var y := a1 + tok + b;
      assert s[0] == c && s[1..] == y;
      var z := Replace(b, tok, rep);
      assert Replace(s, tok, rep) == [c] + Replace(y, tok, rep) by {
        NoOccurrenceStep(a, tok, b);
        ReplaceKeepsHead(s, tok, rep);
      }
      assert Replace(y, tok, rep) == a1 + rep + z by {
        NoOccurrenceStep(a, tok, b);
        ReplaceLeftmost(a1, tok, b, rep);
      }
      Regroup(c, a1, rep, z);
    }
  }

  /** Concatenation regrouped around a first character. */
  lemma Regroup(c: char, a: string, rep: string, z: string)
    ensures [c] + (a + rep + z) == [c] + a + rep + z
  {
  }

  /** Multiplication by a block size, one block at a time. */
  lemma BlockOffsets(i: nat, k: nat)
    requires i > 0
    ensures i * k == k + (i - 1) * k && (i + 1) * k == k + i * k
  {
  }

  /** A slice of p + t that lies past p is a slice of t. */
  lemma SliceAfter(p: string, t: string, lo: nat, hi: nat)
    requires |p| <= lo <= hi <= |p| + |t|
    ensures (p + t)[lo..hi] == t[lo - |p|..hi - |p|]
  {
  }

  /** Where `s.replace("", rep)` puts things: the i-th block of |rep| + 1
      characters is rep followed by s[i]. */
  lemma {:induction false} InterleaveBlock(s: string, rep: string, i: nat)
    requires i < |s|
    ensures var k := |rep| + 1;
            (i + 1) * k <= |Interleave(s, rep)| && Interleave(s, rep)[i * k..(i + 1) * k] == rep + [s[i]]
    decreases i
  {
    var k := |rep| + 1;
    var p := rep + [s[0]];
    var t := Interleave(s[1..], rep);
    assert Interleave(s, rep) == p + t;
    if i > 0 {
      InterleaveBlock(s[1..], rep, i - 1);
      BlockOffsets(i, k);
      SliceAfter(p, t, i * k, (i + 1) * k);
    }
  }

  /** ... and after the last character comes rep once more. */
  lemma {:induction false} InterleaveEnd(s: string, rep: string)
    ensures var k := |rep| + 1;
            |s| * k <= |Interleave(s, rep)| && Interleave(s, rep)[|s| * k..] == rep
    decreases |s|
  {
    var k := |rep| + 1;
    if s != [] {
      var t := Interleave(s[1..], rep);
      InterleaveEnd(s[1..], rep);
      assert Interleave(s, rep) == (rep + [s[0]]) + t;
      BlockOffsets(|s|, k);
    }
  }

  /** Replacing by something no shorter never shortens the text, and
      replacing by something no longer never lengthens it. */
  lemma {:induction false} ReplaceLengthOrder(s: string, tok: string, rep: string)
    requires tok != []
    ensures |tok| <= |rep| ==> |s| <= |Replace(s, tok, rep)|
    ensures |rep| <= |tok| ==> |Replace(s, tok, rep)| <= |s|
    decreases |s|
  {
    if s == [] {
    } else if tok <= s {
      ReplaceLengthOrder(s[|tok|..], tok, rep);
    } else {
      ReplaceLengthOrder(s[1..], tok, rep);
    }
  }

  /** `s.replace(tok, rep)` returns s itself exactly when tok does not occur
      in s or rep is tok. */
  lemma {:induction false} ReplaceUnchangedIff(s: string, tok: string, rep: string)
    ensures Replace(s, tok, rep) == s <==> !Contains(s, tok) || rep == tok
    decreases |s|
  {
    var r := Replace(s, tok, rep);
    if tok == [] {
      assert Contains(s, tok);
      if rep != [] {
        assert |r| > |s|;
      }
    } else if s == [] {
      assert !Contains(s, tok);
    } else if tok <= s {
      var rest := s[|tok|..];
      assert s == tok + rest;
      ReplaceUnchangedIff(rest, tok, rep);
      assert r == rep + Replace(rest, tok, rep);
      if rep != tok {
        ReplaceLengthOrder(rest, tok, rep);
        if |rep| == |tok| {
          assert r[..|rep|] == rep;
          assert s[..|tok|] == tok;
        } else {
          assert |r| != |s|;
        }
      }
    } else {
      ReplaceUnchangedIff(s[1..], tok, rep);
      assert Contains(s, tok) <==> Contains(s[1..], tok);
      assert r == [s[0]] + Replace(s[1..], tok, rep);
      assert s == [s[0]] + s[1..];
    }
  }
}
