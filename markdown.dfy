/**
  The post-processing half of `OptiSignsScraper.clean_html_to_markdown`: the
  (opaque) HTML-to-Markdown conversion is followed by collapsing runs of blank
  lines, stripping, and prefixing the canonical `Article URL:` header.
 */
module ScraperMarkdown {
  import opened Wrappers
  import opened Text

  /** A line with no visible text: `not line.strip()` holds exactly for these (see `BlankIsStripEmpty`). */
  predicate IsBlank(line: string) {
    AllSpace(line)
  }

  lemma BlankIsStripEmpty(line: string)
    ensures IsBlank(line) <==> Strip(line) == []
  {
    StripFacts(line);
  }

  /** Line `i` survives the collapse: it has text, or it opens a run of blank lines. */
  predicate Kept(lines: seq<string>, i: nat)
    requires i < |lines|
  {
    !IsBlank(lines[i]) || i == 0 || !IsBlank(lines[i - 1])
  }

  /** The lines that survive the collapse, in their original order. */
  function Collapse(lines: seq<string>): seq<string> {
    if lines == [] then
      []
    else
      var n := |lines| - 1;
      Collapse(lines[..n]) + (if Kept(lines, n) then [lines[n]] else [])
  }

  /** No two adjacent lines are both blank. */
  predicate NoDoubleBlank(lines: seq<string>) {
    forall j :: 0 <= j < |lines| - 1 ==> !(IsBlank(lines[j]) && IsBlank(lines[j + 1]))
  }

  /** The lines with visible text, in order. */
  function NonBlank(lines: seq<string>): seq<string> {
    if lines == [] then
      []
    else
      var n := |lines| - 1;
      NonBlank(lines[..n]) + (if IsBlank(lines[n]) then [] else [lines[n]])
  }

  /** The canonical header, which is also the whole of a "stub" article. */
  function Header(url: string): string {
    "Article URL: " + url + "\n\n"
  }

  /**
    What `clean_html_to_markdown(html_content, article_url)` returns, given the
    converter `toMarkdown` standing for BeautifulSoup's tag removal followed by
    `html2text`. A missing (`None`) or empty body gives the empty string.
   */
  function Normalized(body: Option<string>, url: string, toMarkdown: string -> string): string {
    if body.None? || body.value == [] then
      []
    else
      Header(url) + Strip(Join(Collapse(Split(toMarkdown(body.value)))))
  }

  method CleanHtmlToMarkdown(body: Option<string>, url: string, toMarkdown: string -> string)
    returns (markdown: string)
    ensures markdown == Normalized(body, url, toMarkdown)
  {
    if body.None? || body.value == [] {
      return [];
    }
    var raw := toMarkdown(body.value);
    var all := Split(raw);
    var lines: seq<string> := [];
    var prevEmpty := false;
    for i := 0 to |all|
      invariant lines == Collapse(all[..i])
      invariant prevEmpty <==> 0 < i && IsBlank(all[i - 1])
    {
      assert all[..i + 1][..i] == all[..i];
      var line := all[i];
      var isEmpty := Strip(line) == [];
      BlankIsStripEmpty(line);
      if isEmpty {
        if !prevEmpty {
          lines := lines + [line];
        }
        prevEmpty := true;
      } else {
        lines := lines + [line];
        prevEmpty := false;
      }
    }
    assert all[..|all|] == all;
    markdown := Strip(Join(lines));
    markdown := Header(url) + markdown;
  }

  // ---------------------------------------------------------------------------
  // Properties of the collapse

  /** The collapse keeps the first line, and its last line is blank exactly when the input's is. */
  lemma {:induction false} CollapseLast(lines: seq<string>)
    requires lines != []
    ensures Collapse(lines) != []
    ensures IsBlank(Collapse(lines)[|Collapse(lines)| - 1]) <==> IsBlank(lines[|lines| - 1])
  {
    var n := |lines| - 1;
    if !Kept(lines, n) {
      assert lines[..n][..n - 1] == lines[..n - 1];
      CollapseLast(lines[..n]);
    }
  }

  /** The output never holds two consecutive blank lines. */
  lemma {:induction false} CollapseNoDoubleBlank(lines: seq<string>)
    ensures NoDoubleBlank(Collapse(lines))
  {
    if lines != [] {
      var n := |lines| - 1;
      var prev := Collapse(lines[..n]);
      CollapseNoDoubleBlank(lines[..n]);
      if Kept(lines, n) && n > 0 {
        CollapseLast(lines[..n]);
        assert lines[..n][n - 1] == lines[n - 1];
      }
    }
  }

  /** Every line with text is kept, unchanged and in order. */
  lemma {:induction false} CollapseKeepsText(lines: seq<string>)
    ensures NonBlank(Collapse(lines)) == NonBlank(lines)
  {
    if lines != [] {
      var n := |lines| - 1;
      var prev := Collapse(lines[..n]);
      CollapseKeepsText(lines[..n]);
      if Kept(lines, n) {
        NonBlankSnoc(prev, lines[n]);
      } else {
        assert Collapse(lines) == prev + [];
        assert prev + [] == prev;
      }
    }
  }

  lemma NonBlankSnoc(s: seq<string>, x: string)
    ensures NonBlank(s + [x]) == NonBlank(s) + if IsBlank(x) then [] else [x]
  {
    assert (s + [x])[..|s|] == s;
  }

  /** Only lines of the input are emitted, each at most as often as it occurs. */
  lemma {:induction false} CollapseOnlyDrops(lines: seq<string>)
    ensures multiset(Collapse(lines)) <= multiset(lines)
  {
    if lines != [] {
      var n := |lines| - 1;
      CollapseOnlyDrops(lines[..n]);
      assert lines == lines[..n] + [lines[n]];
    }
  }

  /** Text that already has no doubled blank line passes through unchanged. */
  lemma {:induction false} CollapseFixesCollapsed(lines: seq<string>)
    requires NoDoubleBlank(lines)
    ensures Collapse(lines) == lines
  {
    if lines != [] {
      var n := |lines| - 1;
      assert NoDoubleBlank(lines[..n]) by {
        forall j | 0 <= j < n - 1 ensures !(IsBlank(lines[..n][j]) && IsBlank(lines[..n][j + 1])) {
          assert lines[..n][j] == lines[j] && lines[..n][j + 1] == lines[j + 1];
        }
      }
      CollapseFixesCollapsed(lines[..n]);
      if n > 0 {
        assert !(IsBlank(lines[n - 1]) && IsBlank(lines[n]));
      }
      assert lines == lines[..n] + [lines[n]];
    }
  }

  /** Collapsing twice is the same as collapsing once. */
  lemma CollapseIdempotent(lines: seq<string>)
    ensures Collapse(Collapse(lines)) == Collapse(lines)
  {
    CollapseNoDoubleBlank(lines);
    CollapseFixesCollapsed(Collapse(lines));
  }

  lemma {:induction false} NonBlankEmpty(lines: seq<string>)
    ensures NonBlank(lines) == [] <==> forall i :: 0 <= i < |lines| ==> IsBlank(lines[i])
  {
    if lines != [] {
      var n := |lines| - 1;
      NonBlankEmpty(lines[..n]);
      assert forall i :: 0 <= i < n ==> lines[..n][i] == lines[i];
    }
  }

  /** The lines inserted in `lines` after line `i`: the line `b` goes right after `lines[i]`. */
  function InsertAfter(lines: seq<string>, i: nat, b: string): seq<string>
    requires i < |lines|
  {
    lines[..i + 1] + [b] + lines[i + 1..]
  }

  lemma {:induction false} InsertAfterPrefix(lines: seq<string>, i: nat, b: string, k: nat)
    requires i < |lines| && IsBlank(lines[i]) && IsBlank(b)
    requires i + 1 <= k <= |lines|
    ensures Collapse(InsertAfter(lines, i, b)[..k + 1]) == Collapse(lines[..k])
    decreases k
  {
    var m := InsertAfter(lines, i, b);
    if k == i + 1 {
      assert m[..k + 1][..k] == lines[..k];
      assert !Kept(m[..k + 1], k);
    } else {
      InsertAfterPrefix(lines, i, b, k - 1);
      assert m[..k + 1][..k] == m[..k];
      assert lines[..k][..k - 1] == lines[..k - 1];
      assert m[k] == lines[k - 1];
      assert IsBlank(m[k - 1]) <==> IsBlank(lines[k - 2]);
      assert Kept(m[..k + 1], k) <==> Kept(lines[..k], k - 1);
    }
  }

  /** A second blank line right after a blank line is formatting noise: the collapse removes it. */
  lemma CollapseIgnoresExtraBlank(lines: seq<string>, i: nat, b: string)
    requires i < |lines| && IsBlank(lines[i]) && IsBlank(b)
    ensures Collapse(InsertAfter(lines, i, b)) == Collapse(lines)
  {
    InsertAfterPrefix(lines, i, b, |lines|);
    TakeAll(InsertAfter(lines, i, b));
    TakeAll(lines);
  }

  lemma TakeAll<T>(s: seq<T>)
    ensures s[..|s|] == s
  {
  }

  // ---------------------------------------------------------------------------
  // Properties of the whole normalisation

  /**
    A present, non-empty body always yields the header followed by the stripped,
    collapsed text, and the result is the header-only stub exactly when the
    converter produced nothing but whitespace.
   */
  lemma NormalizedShape(body: Option<string>, url: string, toMarkdown: string -> string)
    ensures body.None? || body.value == [] ==> Normalized(body, url, toMarkdown) == []
    ensures body.Some? && body.value != [] ==>
      var md := Normalized(body, url, toMarkdown);
      && md != []
      && md[..|Header(url)|] == Header(url)
      && (md == Header(url) <==> AllSpace(toMarkdown(body.value)))
  {
    if body.Some? && body.value != [] {
      var raw := toMarkdown(body.value);
      var all := Split(raw);
      var kept := Collapse(all);
      var md := Normalized(body, url, toMarkdown);
      assert md == Header(url) + Strip(Join(kept));
      assert md == Header(url) <==> Strip(Join(kept)) == [];
      StripFacts(Join(kept));
      JoinAllSpace(kept);
      NonBlankEmpty(kept);
      CollapseKeepsText(all);
      NonBlankEmpty(all);
      JoinAllSpace(all);
      JoinSplit(raw);
    }
  }

  /** A converter output that differs only by a doubled blank line normalises to the same Markdown. */
  lemma NormalizedIgnoresExtraBlank(body: string, body': string, url: string, toMarkdown: string -> string, i: nat, b: string)
    requires body != [] && body' != []
    requires i < |Split(toMarkdown(body))|
    requires IsBlank(Split(toMarkdown(body))[i]) && IsBlank(b)
    requires Split(toMarkdown(body')) == InsertAfter(Split(toMarkdown(body)), i, b)
    ensures Normalized(Some(body'), url, toMarkdown) == Normalized(Some(body), url, toMarkdown)
  {
    CollapseIgnoresExtraBlank(Split(toMarkdown(body)), i, b);
  }
}
