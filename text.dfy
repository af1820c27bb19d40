/** String handling the handlers of index.js apply to what the browser
    returns: JavaScript's String.prototype.trim, and the article body built by
    trimming every paragraph, dropping the empty ones and joining the rest
    with a blank line. */
module Text {

  /** The characters String.prototype.trim removes: the WhiteSpace and
      LineTerminator code points of ECMA-262, sections 12.2 and 12.3. */
  predicate IsWhitespace(c: char) {
    || c == '\t' || c == '\U{000B}' || c == '\U{000C}' || c == ' '
    || c == '\U{00A0}' || c == '\U{1680}' || ('\U{2000}' <= c <= '\U{200A}')
    || c == '\U{202F}' || c == '\U{205F}' || c == '\U{3000}' || c == '\U{FEFF}'
    || c == '\n' || c == '\r' || c == '\U{2028}' || c == '\U{2029}'
  }

  predicate AllWhitespace(s: string) {
    forall i :: 0 <= i < |s| ==> IsWhitespace(s[i])
  }

  /** Neither starts nor ends with whitespace. */
  predicate IsTrimmed(s: string) {
    s == [] || (!IsWhitespace(s[0]) && !IsWhitespace(s[|s| - 1]))
  }

  /** `s` is `r` with whitespace added in front (`a` characters of it) and behind. */
  predicate PaddedBy(s: string, a: nat, r: string) {
    && a + |r| <= |s|
    && s[a..a + |r|] == r
    && AllWhitespace(s[..a])
    && AllWhitespace(s[a + |r|..])
  }

  /** A prefix of a suffix is an infix. */
  lemma {:induction false} PrefixOfSuffix<T>(s: seq<T>, a: nat, k: nat)
    requires a + k <= |s|
    ensures s[a..][..k] == s[a..a + k]
  {
  }

  /** A suffix of a suffix is a suffix. */
  lemma {:induction false} SuffixOfSuffix<T>(s: seq<T>, a: nat, k: nat)
    requires a + k <= |s|
    ensures s[a..][k..] == s[a + k..]
  {
  }

  /** The length of the longest all-whitespace prefix of `s`. */
  function LeadingWhitespace(s: string): (n: nat)
    ensures n <= |s|
  {
    if s == [] || !IsWhitespace(s[0]) then 0 else 1 + LeadingWhitespace(s[1..])
  }

  /** LeadingWhitespace stops at the first character that is not whitespace. */
  lemma {:induction false} LeadingWhitespaceStops(s: string)
    ensures LeadingWhitespace(s) < |s| ==> !IsWhitespace(s[LeadingWhitespace(s)])
  {
    if s != [] && IsWhitespace(s[0]) {
      LeadingWhitespaceStops(s[1..]);
      assert LeadingWhitespace(s) < |s| ==> s[LeadingWhitespace(s)] == s[1..][LeadingWhitespace(s) - 1];
    }
  }

  /** Everything LeadingWhitespace counts is whitespace. */
  lemma {:induction false} LeadingWhitespaceIsWhitespace(s: string)
    ensures AllWhitespace(s[..LeadingWhitespace(s)])
  {
    if s != [] && IsWhitespace(s[0]) {
      LeadingWhitespaceIsWhitespace(s[1..]);
      var n := LeadingWhitespace(s);
      forall i | 0 <= i < n ensures IsWhitespace(s[..n][i]) {
        if i > 0 { assert s[..n][i] == s[1..][..n - 1][i - 1]; }
      }
    }
  }

  /** The length of the longest all-whitespace suffix of `s`. */
  function TrailingWhitespace(s: string): (n: nat)
    ensures n <= |s|
  {
    if s == [] || !IsWhitespace(s[|s| - 1]) then 0
    else 1 + TrailingWhitespace(s[..|s| - 1])
  }

  /** TrailingWhitespace stops at the last character that is not whitespace. */
  lemma {:induction false} TrailingWhitespaceStops(s: string)
    ensures TrailingWhitespace(s) < |s| ==> !IsWhitespace(s[|s| - 1 - TrailingWhitespace(s)])
  {
    if s != [] && IsWhitespace(s[|s| - 1]) {
      var init := s[..|s| - 1];
      TrailingWhitespaceStops(init);
      var n := TrailingWhitespace(s);
      assert n < |s| ==> s[|s| - 1 - n] == init[|init| - 1 - (n - 1)];
    }
  }

  /** Everything TrailingWhitespace counts is whitespace. */
  lemma {:induction false} TrailingWhitespaceIsWhitespace(s: string)
    ensures AllWhitespace(s[|s| - TrailingWhitespace(s)..])
  {
    if s != [] && IsWhitespace(s[|s| - 1]) {
      var init := s[..|s| - 1];
      TrailingWhitespaceIsWhitespace(init);
      var n := TrailingWhitespace(s);
      forall i | |s| - n <= i < |s| ensures IsWhitespace(s[i]) {
        if i < |s| - 1 { assert init[|init| - (n - 1)..][i - (|s| - n)] == s[i]; }
      }
      assert s[|s| - n..] == init[|init| - (n - 1)..] + [s[|s| - 1]];
    }
  }

  /** Whitespace padding around nothing is all whitespace. */
  lemma {:induction false} PaddedEmptyIsWhitespace(s: string, a: nat)
    requires PaddedBy(s, a, [])
    ensures AllWhitespace(s)
  {
    forall i | 0 <= i < |s| ensures IsWhitespace(s[i]) {
      if i < a { assert s[..a][i] == s[i]; } else { assert s[a..][i - a] == s[i]; }
    }
  }

  /** String.prototype.trim: `s` without its leading and trailing whitespace. */
  function Trim(s: string): (r: string)
    ensures |r| <= |s|
  {
    var a := LeadingWhitespace(s);
    var rest := s[a..];
    rest[..|rest| - TrailingWhitespace(rest)]
  }

  /** What Trim returns neither starts nor ends with whitespace. */
  lemma {:induction false} TrimIsTrimmed(s: string)
    ensures IsTrimmed(Trim(s))
  {
    var a := LeadingWhitespace(s);
    var rest := s[a..];
    var b := TrailingWhitespace(rest);
    var r := rest[..|rest| - b];
    assert r == Trim(s);
    if r != [] {
      LeadingWhitespaceStops(s);
      TrailingWhitespaceStops(rest);
      assert r[0] == s[a];
      assert r[|r| - 1] == rest[|rest| - 1 - b];
    }
  }

  /** `s` is what Trim returns, padded by whitespace. */
  lemma {:induction false} TrimIsPadded(s: string)
    ensures PaddedBy(s, LeadingWhitespace(s), Trim(s))
  {
    var a := LeadingWhitespace(s);
    var rest := s[a..];
    var n := |rest| - TrailingWhitespace(rest);
    assert rest[..n] == Trim(s);
    LeadingWhitespaceIsWhitespace(s);
    TrailingWhitespaceIsWhitespace(rest);
    PrefixOfSuffix(s, a, n);
    SuffixOfSuffix(s, a, n);
  }

  /** Trim removes exactly the whitespace around `s`: what it returns is
      trimmed, `s` is it padded by whitespace, and it is empty exactly when
      `s` is all whitespace. */
  lemma {:induction false} TrimRemovesSurroundingWhitespace(s: string)
    ensures IsTrimmed(Trim(s))
    ensures PaddedBy(s, LeadingWhitespace(s), Trim(s))
    ensures Trim(s) == [] <==> AllWhitespace(s)
  {
    TrimIsTrimmed(s);
    TrimIsPadded(s);
    if Trim(s) == [] {
      PaddedEmptyIsWhitespace(s, LeadingWhitespace(s));
    } else {
      assert !IsWhitespace(s[LeadingWhitespace(s)]) by {
        assert s[LeadingWhitespace(s)] == Trim(s)[0];
      }
    }
  }

  /** Whitespace up to a non-whitespace character at `a` is exactly what
      LeadingWhitespace counts. */
  lemma {:induction false} LeadingWhitespaceUnique(s: string, a: nat)
    requires a < |s| && !IsWhitespace(s[a])
    requires forall k :: 0 <= k < a ==> IsWhitespace(s[k])
    ensures LeadingWhitespace(s) == a
  {
    if a > 0 {
      assert IsWhitespace(s[0]);
      assert forall k :: 0 <= k < a - 1 ==> s[1..][k] == s[k + 1];
      LeadingWhitespaceUnique(s[1..], a - 1);
    }
  }

  /** Whitespace after a non-whitespace character `m` places from the end is
      exactly what TrailingWhitespace counts. */
  lemma {:induction false} TrailingWhitespaceUnique(s: string, m: nat)
    requires m < |s| && !IsWhitespace(s[|s| - 1 - m])
    requires forall k :: |s| - m <= k < |s| ==> IsWhitespace(s[k])
    ensures TrailingWhitespace(s) == m
  {
    if m > 0 {
      assert IsWhitespace(s[|s| - 1]);
      var init := s[..|s| - 1];
      assert forall k :: |init| - (m - 1) <= k < |init| ==> init[k] == s[k];
      assert init[|init| - 1 - (m - 1)] == s[|s| - 1 - m];
      TrailingWhitespaceUnique(init, m - 1);
    }
  }

  /** Where a non-empty trimmed infix of `s` padded only by whitespace must
      start and end. */
  lemma {:induction false} PaddingIsSurroundingWhitespace(s: string, a: nat, r: string)
    requires PaddedBy(s, a, r) && IsTrimmed(r) && r != []
    ensures a == LeadingWhitespace(s)
    ensures a + |r| == |s| - TrailingWhitespace(s)
  {
    assert s[a] == r[0] by { assert s[a..a + |r|][0] == s[a]; }
    forall k | 0 <= k < a ensures IsWhitespace(s[k]) { assert s[..a][k] == s[k]; }
    LeadingWhitespaceUnique(s, a);
    var m := |s| - a - |r|;
    assert s[|s| - 1 - m] == r[|r| - 1] by { assert s[a..a + |r|][|r| - 1] == s[a + |r| - 1]; }
    forall k | |s| - m <= k < |s| ensures IsWhitespace(s[k]) {
      assert s[a + |r|..][k - a - |r|] == s[k];
    }
    TrailingWhitespaceUnique(s, m);
  }

  /** Trim is the only trimmed string that `s` holds padded by whitespace. */
  lemma {:induction false} TrimIsUnique(s: string, a: nat, r: string)
    requires PaddedBy(s, a, r) && IsTrimmed(r)
    ensures r == Trim(s)
  {
    var t := Trim(s);
    TrimRemovesSurroundingWhitespace(s);
    if r == [] {
      PaddedEmptyIsWhitespace(s, a);
    } else {
      PaddingIsSurroundingWhitespace(s, a, r);
      assert t != [] by {
        assert s[a] == r[0];
      }
      PaddingIsSurroundingWhitespace(s, a, t);
    }
  }

  /** Trimming leaves a string unchanged exactly when it is already trimmed. */
  lemma {:induction false} TrimFixesTrimmed(s: string)
    ensures Trim(s) == s <==> IsTrimmed(s)
  {
    TrimRemovesSurroundingWhitespace(s);
    if IsTrimmed(s) {
      assert s[..0] == [] && s[|s|..] == [];
      TrimIsUnique(s, 0, s);
    }
  }

  /** Trim is idempotent. */
  lemma {:induction false} TrimIdempotent(s: string)
    ensures Trim(Trim(s)) == Trim(s)
  {
    TrimIsTrimmed(s);
    TrimFixesTrimmed(Trim(s));
  }

  /** No paragraph holds anything but whitespace. */
  predicate AllBlank(raw: seq<string>) {
    raw == [] || (AllWhitespace(raw[0]) && AllBlank(raw[1..]))
  }

  /** AllBlank says of every paragraph that it is all whitespace. */
  lemma {:induction false} AllBlankMeansEveryParagraph(raw: seq<string>)
    ensures AllBlank(raw) <==> forall j :: 0 <= j < |raw| ==> AllWhitespace(raw[j])
  {
    if raw != [] {
      AllBlankMeansEveryParagraph(raw[1..]);
      assert forall j :: 1 <= j < |raw| ==> raw[1..][j - 1] == raw[j];
    }
  }

  /** `ps.map(p => p.innerText.trim()).filter(Boolean)` applied to the
      paragraphs' raw text: the non-empty trimmed paragraphs, in order. */
  function Paragraphs(raw: seq<string>): (ps: seq<string>)
    ensures |ps| <= |raw|
    ensures forall i :: 0 <= i < |ps| ==> ps[i] != [] && IsTrimmed(ps[i])
    ensures ps == [] <==> AllBlank(raw)
  {
    if raw == [] then []
    else
      var p := Trim(raw[0]);
      TrimRemovesSurroundingWhitespace(raw[0]);
      (if p == [] then [] else [p]) + Paragraphs(raw[1..])
  }

  /** Array.prototype.join with separator `sep`. */
  function Join(ps: seq<string>, sep: string): string {
    if ps == [] then []
    else if |ps| == 1 then ps[0]
    else ps[0] + sep + Join(ps[1..], sep)
  }

  /** Join of no strings is empty; otherwise it starts with the first string
      and ends with the last. */
  lemma {:induction false} JoinEnds(ps: seq<string>, sep: string)
    ensures ps == [] ==> Join(ps, sep) == []
    ensures ps != [] ==> |ps[0]| <= |Join(ps, sep)| && Join(ps, sep)[..|ps[0]|] == ps[0]
    ensures ps != [] ==>
              |ps[|ps| - 1]| <= |Join(ps, sep)|
              && Join(ps, sep)[|Join(ps, sep)| - |ps[|ps| - 1]|..] == ps[|ps| - 1]
  {
    if |ps| > 1 {
      var tail := Join(ps[1..], sep);
      JoinEnds(ps[1..], sep);
      var r := ps[0] + sep + tail;
      assert r[..|ps[0]|] == ps[0];
      assert r[|r| - |tail|..] == tail;
    }
  }

  /** One paragraph is kept, trimmed, exactly when it is not all whitespace. */
  lemma {:induction false} ParagraphsOfOne(p: string)
    ensures Paragraphs([p]) == if Trim(p) == [] then [] else [Trim(p)]
  {
    assert [p][1..] == [];
  }

  /** The filter keeps paragraphs in order, independently of one another. */
  lemma {:induction false} ParagraphsOfAppend(a: seq<string>, b: seq<string>)
    ensures Paragraphs(a + b) == Paragraphs(a) + Paragraphs(b)
  {
    if a == [] {
      assert a + b == b;
    } else {
      assert (a + b)[0] == a[0];
      assert (a + b)[1..] == a[1..] + b;
      ParagraphsOfAppend(a[1..], b);
    }
  }

  /** Join of one string is that string; each further string is appended
      after one separator, as the left-to-right loop of Array.prototype.join does. */
  lemma {:induction false} JoinOfAppend(ps: seq<string>, p: string, sep: string)
    ensures Join([p], sep) == p
    ensures ps != [] ==> Join(ps + [p], sep) == Join(ps, sep) + sep + p
  {
    if ps != [] {
      var qs := ps + [p];
      assert qs[0] == ps[0];
      if |ps| == 1 {
        assert qs[1..] == [p];
      } else {
        assert qs[1..] == ps[1..] + [p];
        JoinOfAppend(ps[1..], p, sep);
        assert Join(qs, sep) == ps[0] + sep + (Join(ps[1..], sep) + sep + p);
      }
    }
  }

  /** The blank line `paragraphs.join("\n\n")` puts between paragraphs. */
  const ParagraphSeparator: string := "\n\n"

  /** The article content /scrape-latest-one returns for the paragraphs'
      raw text: the kept paragraphs joined by a blank line. It is trimmed,
      and it is empty exactly when no paragraph holds anything but whitespace. */
  function ArticleContent(raw: seq<string>): (content: string)
    ensures IsTrimmed(content)
    ensures content == [] <==> AllBlank(raw)
  {
    var ps := Paragraphs(raw);
    var content := Join(ps, ParagraphSeparator);
    JoinEnds(ps, ParagraphSeparator);
    assert ps != [] ==> content != [] && content[0] == ps[0][0] by {
      if ps != [] { assert content[..|ps[0]|][0] == content[0]; }
    }
    assert ps != [] ==> content[|content| - 1] == ps[|ps| - 1][|ps[|ps| - 1]| - 1] by {
      if ps != [] {
        var last := ps[|ps| - 1];
        assert content[|content| - |last|..][|last| - 1] == content[|content| - 1];
      }
    }
    content
  }
}
