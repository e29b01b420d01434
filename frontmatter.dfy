/** `updateFrontmatterTags` of the plugin's main module, the two regular
    expression replacements it makes, and the auto-tag command that feeds it
    the classifier's formatted tags. */
module Frontmatter {
  import opened Text
  import opened TagManager

  const OPEN: string := "---\n"
  const CLOSE: string := "\n---"
  const TAGS_KEY: string := "tags:"

  // ---------------------------------------------------------------------------
  // Searching

  /** The first index at or after `from` where `w` occurs in `s`: a leftmost
      search for a literal. */
  function FindFrom(s: string, w: string, from: nat): (r: Option<nat>)
    ensures r.Some? ==> from <= r.value && OccursAt(s, w, r.value)
    ensures r.Some? ==> forall j :: from <= j < r.value ==> !OccursAt(s, w, j)
    ensures r.None? ==> forall j :: from <= j ==> !OccursAt(s, w, j)
    decreases |s| - from
  {
    if from + |w| > |s| then None
    else if s[from..from + |w|] == w then Some(from)
    else FindFrom(s, w, from + 1)
  }

  /** An occurrence with none before it (from `from` on) is the one found. */
  lemma FindFromIs(s: string, w: string, from: nat, i: nat)
    requires from <= i && OccursAt(s, w, i)
    requires forall j :: from <= j < i ==> !OccursAt(s, w, j)
    ensures FindFrom(s, w, from) == Some(i)
  {
    var r := FindFrom(s, w, from);
    assert r.Some?;
    assert !(r.value < i) && !(i < r.value);
  }

  // ---------------------------------------------------------------------------
  // Replacement templates

  function DigitValue(c: char): nat
    requires IsDigit(c)
  {
    c as int - '0' as int
  }

  /** `GetSubstitution` (section 22.1.3.19.1 of ECMA-262, 2023 edition) for a
      regular expression without named groups: the replacement text for a match
      `matched` found at `position` in `str`, with `$$`, `$&`, `` $` ``, `$'`
      and `$n`/`$nn` expanded and every other character copied. */
  function Substitute(template: string, matched: string, str: string, position: nat,
                      captures: seq<string>): string
    requires position + |matched| <= |str|
    decreases |template|
  {
    if template == [] then []
    else if template[0] != '$' || |template| == 1 then
      [template[0]] + Substitute(template[1..], matched, str, position, captures)
    else
      var c := template[1];
      if c == '$' then
        "$" + Substitute(template[2..], matched, str, position, captures)
      else if c == '&' then
        matched + Substitute(template[2..], matched, str, position, captures)
      else if c == '`' then
        str[..position] + Substitute(template[2..], matched, str, position, captures)
      else if c == '\'' then
        str[position + |matched|..] + Substitute(template[2..], matched, str, position, captures)
      else if IsDigit(c) then
        var two := |template| >= 3 && IsDigit(template[2]);
        var twoIndex := if two then 10 * DigitValue(c) + DigitValue(template[2]) else 0;
        var digitCount := if two && twoIndex <= |captures| then 2 else 1;
        var index := if digitCount == 2 then twoIndex else DigitValue(c);
        var reference := template[..1 + digitCount];
        (if 1 <= index <= |captures| then captures[index - 1] else reference) +
        Substitute(template[1 + digitCount..], matched, str, position, captures)
      else
        [template[0]] + Substitute(template[1..], matched, str, position, captures)
  }

  /** A template without `$` is inserted as it is. */
  lemma {:induction false} SubstituteLiteral(template: string, matched: string, str: string,
                                             position: nat, captures: seq<string>)
    requires position + |matched| <= |str|
    requires '$' !in template
    ensures Substitute(template, matched, str, position, captures) == template
    decreases |template|
  {
    if template != [] {
      assert template[0] != '$';
      SubstituteLiteral(template[1..], matched, str, position, captures);
      assert template == [template[0]] + template[1..];
    }
  }

  // ---------------------------------------------------------------------------
  // The frontmatter block

  /** Where `/^---\n([\s\S]*?)\n---/` matches: the content starts with `---\n`,
      and the lazy group stops at the first `\n---` from index 4 on. */
  function FrontmatterEnd(content: string): (r: Option<nat>)
    ensures r.Some? ==> |content| >= 4 && content[..4] == OPEN
    ensures r.Some? ==> 4 <= r.value && OccursAt(content, CLOSE, r.value)
    ensures r.Some? ==> forall j :: 4 <= j < r.value ==> !OccursAt(content, CLOSE, j)
    ensures r.None? ==> !(|content| >= 4 && content[..4] == OPEN) ||
                        forall j :: 4 <= j ==> !OccursAt(content, CLOSE, j)
  {
    if |content| >= 4 && content[..4] == OPEN then FindFrom(content, CLOSE, 4) else None
  }

  /** The captured header and the text after the closing `---`. */
  function Parse(content: string): Option<(string, string)> {
    match FrontmatterEnd(content)
    case None => None
    case Some(k) => Some((content[4..k], content[k + 4..]))
  }

  /** A document with the given header and the given text after it. */
  function Render(header: string, rest: string): string {
    OPEN + header + CLOSE + rest
  }

  /** The lazy group can stop only at the end of `header`: no `\n---` starts
      inside it, even one running on into the closing delimiter. */
  predicate ClosesOnlyAtEnd(header: string) {
    forall j :: 0 <= j < |header| ==> !OccursAt(header + CLOSE, CLOSE, j)
  }

  /** A header the lazy group can capture is parsed back, with the rest. */
  lemma ParseRender(header: string, rest: string)
    requires ClosesOnlyAtEnd(header)
    ensures Parse(Render(header, rest)) == Some((header, rest))
  {
    var d := Render(header, rest);
    var k := 4 + |header|;
    assert d[..4] == OPEN;
    assert d[k..k + 4] == CLOSE;
    forall j | 4 <= j < k ensures !OccursAt(d, CLOSE, j) {
      assert j + 4 <= |d|;
      assert d[j..j + 4] == (header + CLOSE)[j - 4..j];
      assert !OccursAt(header + CLOSE, CLOSE, j - 4);
    }
    assert OccursAt(d, CLOSE, k);
    FindFromIs(d, CLOSE, 4, k);
    assert d[4..k] == header;
    assert d[k + 4..] == rest;
  }

  /** A parsed document renders back to itself, and its header is one the lazy
      group can capture. */
  lemma RenderParse(content: string)
    requires Parse(content).Some?
    ensures Render(Parse(content).value.0, Parse(content).value.1) == content
    ensures ClosesOnlyAtEnd(Parse(content).value.0)
  {
    var k := FrontmatterEnd(content).value;
    var header := content[4..k];
    assert content == content[..4] + header + content[k..k + 4] + content[k + 4..];
    ParsedHeaderCloses(content, k);
  }

  lemma ParsedHeaderCloses(content: string, k: nat)
    requires FrontmatterEnd(content) == Some(k)
    ensures ClosesOnlyAtEnd(content[4..k])
  {
    var header := content[4..k];
    var x := header + CLOSE;
    assert x == content[4..k + 4];
    forall j | 0 <= j < |header| ensures !OccursAt(x, CLOSE, j) {
      assert !OccursAt(content, CLOSE, j + 4);
      CloseAtChars(content, j + 4);
      CloseAtChars(x, j);
      forall q | j <= q < j + 4 ensures x[q] == content[q + 4] {
        assert x[q] == content[4..k + 4][q];
      }
    }
  }

  /** `\n---` occurs at `i` exactly when its four characters are there. */
  lemma CloseAtChars(s: string, i: nat)
    ensures OccursAt(s, CLOSE, i) <==>
            i + 4 <= |s| && s[i] == '\n' && s[i + 1] == '-' && s[i + 2] == '-' && s[i + 3] == '-'
  {
    if i + 4 <= |s| {
      var w := s[i..i + 4];
      assert w[0] == s[i] && w[1] == s[i + 1] && w[2] == s[i + 2] && w[3] == s[i + 3];
      if s[i] == '\n' && s[i + 1] == '-' && s[i + 2] == '-' && s[i + 3] == '-' {
        assert w == CLOSE;
      }
    }
  }

  // ---------------------------------------------------------------------------
  // The tags line

  /** Where `/tags:.*$/m` matches: the first `tags:` anywhere in the header,
      running to the end of its line. */
  function TagsLine(header: string): (r: Option<(nat, nat)>)
    ensures r.Some? ==> OccursAt(header, TAGS_KEY, r.value.0)
    ensures r.Some? ==> forall j :: 0 <= j < r.value.0 ==> !OccursAt(header, TAGS_KEY, j)
    ensures r.Some? ==> r.value.1 == LineEnd(header, r.value.0 + 5)
    ensures r.None? ==> forall j :: 0 <= j ==> !OccursAt(header, TAGS_KEY, j)
  {
    match FindFrom(header, TAGS_KEY, 0)
    case None => None
    case Some(p) => Some((p, LineEnd(header, p + 5)))
  }

  /** `header.replace(/tags:.*$/m, template)`: the template is expanded for the
      match of the tags line; a header with no `tags:` is returned as it is. */
  function ReplaceTagsLine(header: string, template: string): string {
    match TagsLine(header)
    case None => header
    case Some((p, e)) => header[..p] + Substitute(template, header[p..e], header, p, []) + header[e..]
  }

  /** `updateFrontmatterTags` as written. Both `replace` calls take their
      replacement as a template, so `$` patterns in the tags, or in the header
      the second call writes back, are expanded; and the `||` fallback fires
      only when the replaced header is empty, which, as `replace` returns a
      header without `tags:` unchanged, happens only for an empty header. */
  function UpdateFrontmatterTags(content: string, tags: string): string {
    match FrontmatterEnd(content)
    case None => OPEN + "tags: " + tags + CLOSE + "\n\n" + content
    case Some(k) =>
      var header := content[4..k];
      Substitute(OPEN + UpdateHeaderAsWritten(header, tags) + CLOSE, content[..k + 4], content, 0, [header]) +
      content[k + 4..]
  }

  /** `frontmatter.replace(/tags:.*$/m, `tags: ${tags}`) || `${frontmatter}\ntags: ${tags}``. */
  function UpdateHeaderAsWritten(header: string, tags: string): string {
    var replaced := ReplaceTagsLine(header, "tags: " + tags);
    if replaced == "" then header + "\ntags: " + tags else replaced
  }

  /** The header with its tags line set to `tags: <tags>`, inserted literally:
      the first `tags:` and the rest of its line are replaced, and a header with
      no `tags:` gets the line appended. */
  function UpdateHeader(header: string, tags: string): string {
    match TagsLine(header)
    case None => header + "\ntags: " + tags
    case Some((p, e)) => header[..p] + "tags: " + tags + header[e..]
  }

  /** What `updateFrontmatterTags` evidently intends: the tags line of the
      frontmatter set to `tags: <tags>`, appended when missing, and a
      frontmatter holding only that line put in front of a document that has
      none. */
  function UpdateFrontmatterTagsIntended(content: string, tags: string): string {
    match Parse(content)
    case None => Render("tags: " + tags, "\n\n" + content)
    case Some((header, rest)) => Render(UpdateHeader(header, tags), rest)
  }

  /** The text of the header's tags line, if it has one. */
  function TagsLineText(header: string): Option<string> {
    match TagsLine(header)
    case None => None
    case Some((p, e)) => Some(header[p..e])
  }

  /** The as-written and the intended update agree: the frontmatter holds no
      `$`, and either it has a tags line or is empty. */
  predicate ReplacementsAgree(content: string) {
    match Parse(content)
    case None => true
    case Some((header, _)) => '$' !in header && (TagsLine(header).Some? || header == "")
  }

  // ---------------------------------------------------------------------------
  // The as-written update against the intended one

  /** Without `$` in the tags or the header, and with a tags line to replace or
      an empty header, the as-written update is the intended one. */
  lemma AsWrittenIsIntended(content: string, tags: string)
    requires '$' !in tags && ReplacementsAgree(content)
    ensures UpdateFrontmatterTags(content, tags) == UpdateFrontmatterTagsIntended(content, tags)
  {
    if FrontmatterEnd(content).Some? {
      var k := FrontmatterEnd(content).value;
      var header := content[4..k];
      assert Parse(content) == Some((header, content[k + 4..]));
      ReplaceTagsLineLiteral(header, tags);
      AsWrittenOnFrontmatter(content, tags, k, header);
    }
  }

  /** The as-written update of a document with frontmatter, once the header
      replacement is known to be the intended one and `$`-free. */
  lemma AsWrittenOnFrontmatter(content: string, tags: string, k: nat, header: string)
    requires FrontmatterEnd(content) == Some(k) && header == content[4..k]
    requires UpdateHeaderAsWritten(header, tags) == UpdateHeader(header, tags)
    requires '$' !in UpdateHeader(header, tags)
    ensures UpdateFrontmatterTags(content, tags) == OPEN + UpdateHeader(header, tags) + CLOSE + content[k + 4..]
  {
    var updated := UpdateHeader(header, tags);
    assert '$' !in OPEN + updated + CLOSE;
    SubstituteLiteral(OPEN + updated + CLOSE, content[..k + 4], content, 0, [header]);
  }

  /** Without `$`, the as-written replacement of the header is the intended
      one, and the new header holds no `$`. */
  lemma ReplaceTagsLineLiteral(header: string, tags: string)
    requires '$' !in tags && '$' !in header
    requires TagsLine(header).Some? || header == ""
    ensures UpdateHeaderAsWritten(header, tags) == UpdateHeader(header, tags)
    ensures '$' !in UpdateHeader(header, tags)
  {
    var m := "tags: " + tags;
    assert '$' !in m by {
      forall k | 0 <= k < |m| ensures m[k] != '$' {
        if k >= 6 { assert m[k] == tags[k - 6]; }
      }
    }
    match TagsLine(header)
    case None =>
      assert UpdateHeader(header, tags) == "" + "\ntags: " + tags;
      assert "\ntags: " + tags == "\n" + m;
      NoDollarSplice("", 0, 0, "\n" + m);
    case Some((p, e)) =>
      AsWrittenSplice(header, p, e, tags);
      NoDollarSplice(header, p, e, m);
  }

  /** Splicing a `$`-free text into a `$`-free header leaves no `$`. */
  lemma NoDollarSplice(header: string, p: nat, e: nat, m: string)
    requires p <= e <= |header| && '$' !in header && '$' !in m
    ensures '$' !in header[..p] + m + header[e..]
  {
    var h := header[..p] + m + header[e..];
    forall k | 0 <= k < |h| ensures h[k] != '$' {
      if k < p {
        assert h[k] == header[k];
      } else if k < p + |m| {
        assert h[k] == m[k - p];
      } else {
        assert h[k] == header[k - p - |m| + e];
      }
    }
  }

  /** The fallback misses a non-empty header without a tags line: the
      document comes back unchanged, where the intended update adds the line. */
  lemma AsWrittenSkipsMissingTagsLine(content: string, tags: string)
    requires Parse(content).Some?
    requires var header := Parse(content).value.0; header != "" && '$' !in header && TagsLine(header).None?
    ensures UpdateFrontmatterTags(content, tags) == content
    ensures UpdateFrontmatterTagsIntended(content, tags) != content
  {
    var k := FrontmatterEnd(content).value;
    var header := content[4..k];
    RenderParse(content);
    assert '$' !in OPEN + header + CLOSE;
    SubstituteLiteral(OPEN + header + CLOSE, content[..k + 4], content, 0, [header]);
    assert content[..k + 4] == OPEN + header + CLOSE;
    assert |UpdateFrontmatterTagsIntended(content, tags)| > |content|;
  }

  /** A `$&` in the frontmatter, outside its tags line: the as-written update
      writes the whole matched frontmatter block in its place, where the
      intended update only sets the tags line. With `note: ` before it and
      `x` as the old tags, the document `---\nnote: $&\ntags: x\n---` is one
      such input. */
  lemma AsWrittenExpandsAmpersand(before: string, previous: string, tags: string, rest: string)
    requires OneLine(before) && OneLine(previous) && OneLine(tags)
    requires '$' !in before && '$' !in tags
    requires forall k :: 0 <= k < |before| ==> before[k] != 'g'
    ensures var header := before + "$&" + "\ntags: " + previous;
            UpdateFrontmatterTags(Render(header, rest), tags) ==
            OPEN + before + (OPEN + header + CLOSE) + ("\ntags: " + tags + CLOSE) + rest
  {
    var a := AmpersandAppended(before);
    var header := a + "\ntags: " + previous;
    var content := Render(header, rest);
    var k := AmpersandExampleParses(a, previous, rest);
    var updated := BothHeadersAgree(a, previous, tags, a + "\ntags: " + previous);
    var matched := AmpersandExpanded(before, tags, header, content, k, updated);
    AsWrittenUnfold(content, tags, k, header, updated);
    ConcatAssoc(OPEN + before, matched, "\ntags: " + tags + CLOSE, rest);
  }

  /** On the same documents the intended update only sets the tags line and
      keeps the `$&` as it is. */
  lemma IntendedKeepsAmpersand(before: string, previous: string, tags: string, rest: string)
    requires OneLine(before) && OneLine(previous)
    requires '$' !in tags
    requires forall k :: 0 <= k < |before| ==> before[k] != 'g'
    ensures var header := before + "$&" + "\ntags: " + previous;
            UpdateFrontmatterTagsIntended(Render(header, rest), tags) ==
            OPEN + before + "$&" + "\ntags: " + tags + CLOSE + rest
  {
    var a := AmpersandAppended(before);
    var k := AmpersandExampleParses(a, previous, rest);
    var updated := BothHeadersAgree(a, previous, tags, a + "\ntags: " + previous);
    IntendedUnfold(Render(a + "\ntags: " + previous, rest), tags, a + "\ntags: " + previous, rest, updated);
    Assoc3(OPEN, before + "$&" + "\ntags: ", tags);
    Assoc3(OPEN, before + "$&", "\ntags: ");
    Assoc3(OPEN, before, "$&");
  }

  lemma Assoc3(a: string, b: string, c: string)
    ensures a + (b + c) == a + b + c
  {
  }

  /** The intended update of a document with frontmatter, one step unfolded. */
  lemma IntendedUnfold(content: string, tags: string, header: string, rest: string, updated: string)
    requires Parse(content) == Some((header, rest))
    requires UpdateHeader(header, tags) == updated
    ensures UpdateFrontmatterTagsIntended(content, tags) == OPEN + updated + CLOSE + rest
  {
  }

  /** The as-written update of a document with frontmatter, one step unfolded. */
  lemma AsWrittenUnfold(content: string, tags: string, k: nat, header: string, updated: string)
    requires FrontmatterEnd(content) == Some(k) && header == content[4..k]
    requires UpdateHeaderAsWritten(header, tags) == updated
    ensures UpdateFrontmatterTags(content, tags) ==
            Substitute(OPEN + updated + CLOSE, content[..k + 4], content, 0, [header]) + content[k + 4..]
  {
  }

  /** `before + "$&"` keeps the properties of `before` that the example needs. */
  lemma AmpersandAppended(before: string) returns (a: string)
    requires OneLine(before)
    requires forall k :: 0 <= k < |before| ==> before[k] != 'g'
    ensures a == before + "$&"
    ensures OneLine(a) && forall j :: 0 <= j < |a| ==> a[j] != 'g'
  {
    a := before + "$&";
    forall j | 0 <= j < |a| ensures !IsLineTerminator(a[j]) && a[j] != 'g' {
      if j < |before| {
        assert a[j] == before[j];
      }
    }
  }

  /** The outer template of the example, expanded: `$&` becomes the matched
      frontmatter block. */
  lemma AmpersandExpanded(before: string, tags: string, header: string, content: string, k: nat,
                           updated: string)
    returns (matched: string)
    requires '$' !in before && '$' !in tags
    requires k + 4 <= |content| && content[..k + 4] == OPEN + header + CLOSE
    requires updated == before + "$&" + "\ntags: " + tags
    ensures matched == OPEN + header + CLOSE && matched == content[..k + 4]
    ensures Substitute(OPEN + updated + CLOSE, matched, content, 0, [header]) ==
            OPEN + before + (matched + ("\ntags: " + tags + CLOSE))
  {
    matched := content[..k + 4];
    var prefix := OPEN + before;
    var suffix := "\ntags: " + tags + CLOSE;
    assert OPEN + updated + CLOSE == prefix + ("$&" + suffix);
    SubstituteLiteralPrefix(prefix, "$&" + suffix, matched, content, 0, [header]);
    SubstituteAmpersand(suffix, matched, content, 0, [header]);
    SubstituteLiteral(suffix, matched, content, 0, [header]);
  }

  lemma ConcatAssoc(a: string, b: string, c: string, d: string)
    ensures a + (b + c) + d == a + b + c + d
  {
  }

  /** Where the frontmatter and the tags line of such a document are. */
  lemma AmpersandExampleParses(a: string, previous: string, rest: string) returns (k: nat)
    requires OneLine(a) && OneLine(previous)
    requires forall j :: 0 <= j < |a| ==> a[j] != 'g'
    ensures k == 4 + |a + "\ntags: " + previous|
    ensures FrontmatterEnd(Render(a + "\ntags: " + previous, rest)) == Some(k)
    ensures Parse(Render(a + "\ntags: " + previous, rest)) == Some((a + "\ntags: " + previous, rest))
    ensures TagsLine(a + "\ntags: " + previous) == Some((|a| + 1, |a + "\ntags: " + previous|))
  {
    var header := a + "\ntags: " + previous;
    OneLineCloses(a);
    TagsLineIsOneLine(previous);
    AppendCloses(a, "tags: " + previous);
    assert header == a + "\n" + ("tags: " + previous);
    ParseRender(header, rest);
    k := 4 + |header|;
    KeyAbsent(a);
    AppendedTagsLine(a, previous);
  }

  /** On such a header both updates set the tags line to `tags: <tags>`. */
  lemma BothHeadersAgree(a: string, previous: string, tags: string, header: string) returns (updated: string)
    requires '$' !in tags && header == a + "\ntags: " + previous
    requires TagsLine(header) == Some((|a| + 1, |header|))
    ensures updated == a + "\ntags: " + tags
    ensures UpdateHeaderAsWritten(header, tags) == updated
    ensures UpdateHeader(header, tags) == updated
  {
    var p: nat, e: nat := |a| + 1, |header|;
    updated := a + "\ntags: " + tags;
    assert header[..p] + ("tags: " + tags) + header[e..] == updated by {
      assert header == a + "\n" + ("tags: " + previous);
      SpliceEnd(a, "tags: " + previous, header, "tags: " + tags);
    }
    AsWrittenSplice(header, p, e, tags);
  }

  /** Replacing all of the last line of `a + "\n" + line`. */
  lemma SpliceEnd(a: string, line: string, header: string, m: string)
    requires header == a + "\n" + line
    ensures header[..|a| + 1] + m + header[|header|..] == a + "\n" + m
  {
    assert header[..|a| + 1] == a + "\n";
    assert header[|header|..] == [];
  }

  /** With a tags line and `$`-free tags, the as-written header replacement
      splices the new line in, whatever else the header holds. */
  lemma AsWrittenSplice(header: string, p: nat, e: nat, tags: string)
    requires '$' !in tags && TagsLine(header) == Some((p, e))
    ensures UpdateHeaderAsWritten(header, tags) == header[..p] + ("tags: " + tags) + header[e..]
    ensures UpdateHeader(header, tags) == header[..p] + ("tags: " + tags) + header[e..]
  {
    SubstituteLiteral("tags: " + tags, header[p..e], header, p, []);
    var replaced := header[..p] + ("tags: " + tags) + header[e..];
    assert ReplaceTagsLine(header, "tags: " + tags) == replaced;
    assert |replaced| > 0;
    assert UpdateHeader(header, tags) == header[..p] + "tags: " + tags + header[e..];
    Assoc3(header[..p], "tags: ", tags);
  }

  /** A header without the letter `g` has no `tags:`. */
  lemma KeyAbsent(header: string)
    requires forall k :: 0 <= k < |header| ==> header[k] != 'g'
    ensures TagsLine(header).None?
  {
    forall j | 0 <= j ensures !OccursAt(header, TAGS_KEY, j) {
      if j + 5 <= |header| {
        assert header[j..j + 5][2] == header[j + 2];
      }
    }
  }

  /** `$&` is replaced by the matched text. */
  lemma SubstituteAmpersand(template: string, matched: string, str: string, position: nat,
                            captures: seq<string>)
    requires position + |matched| <= |str|
    ensures Substitute("$&" + template, matched, str, position, captures) ==
            matched + Substitute(template, matched, str, position, captures)
  {
    var t := "$&" + template;
    assert t[0] == '$' && t[1] == '&' && t[2..] == template;
  }

  /** A `$`-free prefix of a template is copied as it is. */
  lemma {:induction false} SubstituteLiteralPrefix(prefix: string, template: string, matched: string,
                                                   str: string, position: nat, captures: seq<string>)
    requires position + |matched| <= |str|
    requires '$' !in prefix
    ensures Substitute(prefix + template, matched, str, position, captures) ==
            prefix + Substitute(template, matched, str, position, captures)
    decreases |prefix|
  {
    if prefix != [] {
      assert (prefix + template)[0] == prefix[0] != '$';
      assert (prefix + template)[1..] == prefix[1..] + template;
      SubstituteLiteralPrefix(prefix[1..], template, matched, str, position, captures);
      assert prefix == [prefix[0]] + prefix[1..];
    } else {
      assert prefix + template == template;
    }
  }

  // ---------------------------------------------------------------------------
  // Properties of the intended update

  /** The updated header of a capturable header is still capturable, when the
      tags are on one line. */
  lemma UpdateHeaderCloses(header: string, tags: string)
    requires ClosesOnlyAtEnd(header) && OneLine(tags)
    ensures ClosesOnlyAtEnd(UpdateHeader(header, tags))
  {
    var m := "tags: " + tags;
    TagsLineIsOneLine(tags);
    var t := TagsLine(header);
    if t.Some? {
      var p, e := t.value.0, t.value.1;
      SpliceCloses(header, p, e, m);
      assert UpdateHeader(header, tags) == header[..p] + "tags: " + tags + header[e..];
      Assoc3(header[..p], "tags: ", tags);
    } else {
      AppendCloses(header, m);
      assert UpdateHeader(header, tags) == header + "\ntags: " + tags;
      assert "\ntags: " + tags == "\n" + m;
      Assoc3(header, "\n", m);
      Assoc3(header, "\ntags: ", tags);
    }
  }

  lemma TagsLineIsOneLine(tags: string)
    requires OneLine(tags)
    ensures OneLine("tags: " + tags)
  {
    var m := "tags: " + tags;
    forall k | 0 <= k < |m| ensures !IsLineTerminator(m[k]) {
      if k >= 6 {
        assert m[k] == tags[k - 6];
      }
    }
  }

  /** A one-line header is capturable. */
  lemma OneLineCloses(m: string)
    requires OneLine(m)
    ensures ClosesOnlyAtEnd(m)
  {
    forall j | 0 <= j < |m| ensures !OccursAt(m + CLOSE, CLOSE, j) {
      assert (m + CLOSE)[j] == m[j];
    }
  }

  /** Appending a line break and a one-line text starting with `t` keeps a
      header capturable. */
  lemma AppendCloses(header: string, m: string)
    requires ClosesOnlyAtEnd(header)
    requires OneLine(m) && m != [] && m[0] == 't'
    ensures ClosesOnlyAtEnd(header + "\n" + m)
  {
    var h := header + "\n" + m;
    forall j | 0 <= j < |h| ensures !OccursAt(h + CLOSE, CLOSE, j) {
      AppendClosesAt(header, m, j);
    }
  }

  lemma AppendClosesAt(header: string, m: string, j: nat)
    requires ClosesOnlyAtEnd(header)
    requires OneLine(m) && m != [] && m[0] == 't'
    requires j < |header| + 1 + |m|
    ensures !OccursAt(header + "\n" + m + CLOSE, CLOSE, j)
  {
    var y := header + "\n" + m + CLOSE;
    var x := header + CLOSE;
    var n := |header|;
    CloseAtChars(y, j);
    assert y[n + 1] == 't';
    if j + 3 <= n {
      CloseAtChars(x, j);
      assert !OccursAt(x, CLOSE, j);
      forall q | j <= q < j + 4 ensures y[q] == x[q] {
        if q < n {
          assert y[q] == header[q] == x[q];
        } else {
          assert y[n] == '\n' == x[n];
        }
      }
    } else if j <= n {
    } else {
      assert y[j] == m[j - n - 1];
      assert !IsLineTerminator(m[j - n - 1]);
    }
  }

  /** Replacing `header[p..e]` by a one-line text starting with `t` keeps the
      header capturable. */
  lemma SpliceCloses(header: string, p: nat, e: nat, m: string)
    requires p <= e <= |header|
    requires ClosesOnlyAtEnd(header)
    requires OneLine(m) && m != [] && m[0] == 't'
    ensures ClosesOnlyAtEnd(header[..p] + m + header[e..])
  {
    var h := header[..p] + m + header[e..];
    forall j | 0 <= j < |h| ensures !OccursAt(h + CLOSE, CLOSE, j) {
      SpliceClosesAt(header, p, e, m, j);
    }
  }

  lemma SpliceClosesAt(header: string, p: nat, e: nat, m: string, j: nat)
    requires p <= e <= |header|
    requires ClosesOnlyAtEnd(header)
    requires OneLine(m) && m != [] && m[0] == 't'
    requires j < p + |m| + |header| - e
    ensures !OccursAt(header[..p] + m + header[e..] + CLOSE, CLOSE, j)
  {
    var y := header[..p] + m + header[e..] + CLOSE;
    var x := header + CLOSE;
    var shift := p + |m|;
    CloseAtChars(y, j);
    if j < p {
      assert y[p] == 't';
      if j + 3 < p {
        CloseAtChars(x, j);
        assert !OccursAt(x, CLOSE, j);
        forall q | j <= q < j + 4 ensures y[q] == x[q] {
          assert y[q] == header[q];
        }
      }
    } else if j < shift {
      assert y[j] == m[j - p];
      assert !IsLineTerminator(m[j - p]);
    } else {
      var i := j - shift + e;
      assert i < |header|;
      assert !OccursAt(x, CLOSE, i);
      CloseAtChars(x, i);
      assert |y| - j == |x| - i;
      forall q | j <= q < |y| ensures y[q] == x[q - j + i] {
        if q - j + i < |header| {
          assert y[q] == header[q - j + i];
        } else {
          assert y[q] == CLOSE[q - j + i - |header|];
        }
      }
    }
  }

  /** The first `tags:` of a spliced header is the one spliced in, and its
      line ends where the one-line tags end. */
  lemma SplicedTagsLine(header: string, p: nat, e: nat, tags: string)
    requires TagsLine(header) == Some((p, e))
    requires OneLine(tags)
    ensures TagsLine(header[..p] + "tags: " + tags + header[e..]).Some?
    ensures TagsLine(header[..p] + "tags: " + tags + header[e..]).value.0 == p
    ensures TagsLine(header[..p] + "tags: " + tags + header[e..]).value.1 == p + 6 + |tags|
  {
    SplicedKeyFirst(header, p, e, tags);
    assert p + 5 <= e == LineEnd(header, p + 5);
    SplicedLineEnd(header, p, e, tags);
  }

  lemma SplicedKeyFirst(header: string, p: nat, e: nat, tags: string)
    requires TagsLine(header) == Some((p, e))
    ensures FindFrom(header[..p] + "tags: " + tags + header[e..], TAGS_KEY, 0) == Some(p)
  {
    var h := header[..p] + "tags: " + tags + header[e..];
    assert h[p..p + 5] == TAGS_KEY;
    forall q | 0 <= q < p ensures !OccursAt(h, TAGS_KEY, q) {
      if q + 5 <= p {
        assert h[q..q + 5] == header[q..q + 5];
        assert !OccursAt(header, TAGS_KEY, q);
      } else if q + 5 <= |h| {
        assert h[q..q + 5][p - q] == h[p] == 't';
        assert TAGS_KEY[p - q] != 't';
      }
    }
    assert OccursAt(h, TAGS_KEY, p);
    FindFromIs(h, TAGS_KEY, 0, p);
  }

  lemma SplicedLineEnd(header: string, p: nat, e: nat, tags: string)
    requires p <= e <= |header| && (e == |header| || IsLineTerminator(header[e]))
    requires OneLine(tags)
    ensures LineEnd(header[..p] + "tags: " + tags + header[e..], p + 5) == p + 6 + |tags|
  {
    var h := header[..p] + "tags: " + tags + header[e..];
    var n := p + 6 + |tags|;
    forall j | p + 5 <= j < n ensures !IsLineTerminator(h[j]) {
      if j > p + 5 {
        assert h[j] == tags[j - p - 6];
      }
    }
    assert n == |h| || IsLineTerminator(h[n]) by {
      if n < |h| {
        assert h[n] == header[e];
      }
    }
    assert LineEnd(h, p + 5) == n;
  }

  /** The first `tags:` of a header that had none, after the line is
      appended, is the appended one, running to the end. */
  lemma AppendedTagsLine(header: string, tags: string)
    requires TagsLine(header).None?
    requires OneLine(tags)
    ensures TagsLine(header + "\ntags: " + tags).Some?
    ensures TagsLine(header + "\ntags: " + tags).value.0 == |header| + 1
    ensures TagsLine(header + "\ntags: " + tags).value.1 == |header + "\ntags: " + tags|
  {
    var h := header + "\ntags: " + tags;
    var n := |header|;
    assert h[n + 1..n + 6] == TAGS_KEY;
    forall q | 0 <= q < n + 1 ensures !OccursAt(h, TAGS_KEY, q) {
      if q + 5 <= n {
        assert h[q..q + 5] == header[q..q + 5];
        assert !OccursAt(header, TAGS_KEY, q);
      } else if q + 5 <= |h| {
        assert h[q..q + 5][n - q] == h[n] == '\n';
        assert TAGS_KEY[n - q] != '\n';
      }
    }
    assert OccursAt(h, TAGS_KEY, n + 1);
    FindFromIs(h, TAGS_KEY, 0, n + 1);
    forall j | n + 6 <= j < |h| ensures !IsLineTerminator(h[j]) {
      if j > n + 6 {
        assert h[j] == tags[j - n - 7];
      }
    }
    assert LineEnd(h, n + 6) == |h|;
  }

  /** After the update, the header's tags line reads `tags: <tags>`, and the
      tags line is the line as inserted. */
  lemma UpdateHeaderSetsTags(header: string, tags: string)
    requires OneLine(tags)
    ensures TagsLineText(UpdateHeader(header, tags)) == Some("tags: " + tags)
  {
    if TagsLine(header).None? {
      AppendSetsTags(header, tags);
    } else {
      SpliceSetsTags(header, TagsLine(header).value.0, TagsLine(header).value.1, tags);
    }
  }

  lemma AppendSetsTags(header: string, tags: string)
    requires OneLine(tags) && TagsLine(header).None?
    ensures TagsLineText(UpdateHeader(header, tags)) == Some("tags: " + tags)
  {
    var h' := header + "\ntags: " + tags;
    assert UpdateHeader(header, tags) == h';
    AppendedTagsLine(header, tags);
    assert TagsLineText(h') == Some(h'[|header| + 1..|h'|]);
    assert h'[|header| + 1..|h'|] == "tags: " + tags;
  }

  lemma SpliceSetsTags(header: string, p: nat, e: nat, tags: string)
    requires OneLine(tags) && TagsLine(header) == Some((p, e))
    ensures TagsLineText(UpdateHeader(header, tags)) == Some("tags: " + tags)
  {
    var h' := header[..p] + "tags: " + tags + header[e..];
    assert UpdateHeader(header, tags) == h';
    SplicedTagsLine(header, p, e, tags);
    assert TagsLineText(h') == Some(h'[p..p + 6 + |tags|]);
    assert h'[p..p + 6 + |tags|] == "tags: " + tags;
  }

  /** Updating an updated header with the same one-line tags changes nothing. */
  lemma UpdateHeaderStable(header: string, tags: string)
    requires OneLine(tags)
    ensures UpdateHeader(UpdateHeader(header, tags), tags) == UpdateHeader(header, tags)
  {
    var t := TagsLine(header);
    if t.None? {
      AppendedStable(header, tags);
    } else {
      SplicedStable(header, t.value.0, t.value.1, tags);
    }
  }

  lemma AppendedStable(header: string, tags: string)
    requires OneLine(tags) && TagsLine(header).None?
    ensures UpdateHeader(UpdateHeader(header, tags), tags) == UpdateHeader(header, tags)
  {
    var h' := header + "\ntags: " + tags;
    assert UpdateHeader(header, tags) == h';
    AppendedTagsLine(header, tags);
    var n: nat := |header| + 1;
    assert TagsLine(h') == Some((n, |h'|));
    assert UpdateHeader(h', tags) == h'[..n] + "tags: " + tags + h'[|h'|..];
    assert h'[..n] == header + "\n" && h'[|h'|..] == [];
    Assoc3(header, "\n", "tags: ");
  }

  lemma SplicedStable(header: string, p: nat, e: nat, tags: string)
    requires OneLine(tags) && TagsLine(header) == Some((p, e))
    ensures UpdateHeader(UpdateHeader(header, tags), tags) == UpdateHeader(header, tags)
  {
    var h' := header[..p] + "tags: " + tags + header[e..];
    assert UpdateHeader(header, tags) == h';
    SplicedTagsLine(header, p, e, tags);
    var n: nat := p + 6 + |tags|;
    assert TagsLine(h') == Some((p, n));
    assert UpdateHeader(h', tags) == h'[..p] + "tags: " + tags + h'[n..];
    assert h'[..p] == header[..p];
    assert h'[n..] == header[e..];
  }

  /** The document after the intended update parses to the updated header and
      the untouched rest; a document without frontmatter gets one holding only
      the tags line, in front of a blank line and the old text. */
  lemma IntendedParse(content: string, tags: string)
    requires OneLine(tags)
    ensures Parse(content).None? ==>
            Parse(UpdateFrontmatterTagsIntended(content, tags)) == Some(("tags: " + tags, "\n\n" + content))
    ensures Parse(content).Some? ==>
            Parse(UpdateFrontmatterTagsIntended(content, tags)) ==
            Some((UpdateHeader(Parse(content).value.0, tags), Parse(content).value.1))
  {
    match Parse(content)
    case None =>
      TagsLineIsOneLine(tags);
      OneLineCloses("tags: " + tags);
      ParseRender("tags: " + tags, "\n\n" + content);
    case Some((header, rest)) =>
      RenderParse(content);
      UpdateHeaderCloses(header, tags);
      ParseRender(UpdateHeader(header, tags), rest);
  }

  /** A header holding only `tags: <tags>` has that as its tags line. */
  lemma OnlyTagsLine(tags: string)
    requires OneLine(tags)
    ensures TagsLine("tags: " + tags).Some?
    ensures TagsLine("tags: " + tags).value.0 == 0
    ensures TagsLine("tags: " + tags).value.1 == |"tags: " + tags|
  {
    var h := "tags: " + tags;
    assert h[0..5] == TAGS_KEY;
    FindFromIs(h, TAGS_KEY, 0, 0);
    TagsLineIsOneLine(tags);
    var e := LineEnd(h, 5);
    assert OneLine(h);
    assert e == |h|;
  }

  /** After the intended update the document has frontmatter whose tags line
      reads `tags: <tags>`. */
  lemma IntendedSetsTags(content: string, tags: string)
    requires OneLine(tags)
    ensures Parse(UpdateFrontmatterTagsIntended(content, tags)).Some?
    ensures TagsLineText(Parse(UpdateFrontmatterTagsIntended(content, tags)).value.0) == Some("tags: " + tags)
  {
    IntendedParse(content, tags);
    if Parse(content).None? {
      OnlyTagsLine(tags);
      var h := "tags: " + tags;
      assert h[0..|h|] == h;
    } else {
      UpdateHeaderSetsTags(Parse(content).value.0, tags);
    }
  }

  /** Running the intended update twice with the same one-line tags is the
      same as running it once. */
  lemma IntendedIdempotent(content: string, tags: string)
    requires OneLine(tags)
    ensures UpdateFrontmatterTagsIntended(UpdateFrontmatterTagsIntended(content, tags), tags) ==
            UpdateFrontmatterTagsIntended(content, tags)
  {
    var once := UpdateFrontmatterTagsIntended(content, tags);
    IntendedParse(content, tags);
    var header := Parse(once).value.0;
    var rest := Parse(once).value.1;
    assert UpdateFrontmatterTagsIntended(once, tags) == Render(UpdateHeader(header, tags), rest);
    if Parse(content).None? {
      OnlyTagsLine(tags);
      assert header == "tags: " + tags;
      assert UpdateHeader(header, tags) == header[..0] + "tags: " + tags + header[|header|..];
      assert once == Render(header, rest);
    } else {
      var first := Parse(content).value.0;
      UpdateHeaderStable(first, tags);
      assert header == UpdateHeader(first, tags);
      assert once == Render(header, rest);
    }
  }

  /** With a tags line in the frontmatter, the intended update changes that
      line and nothing else in the document. */
  lemma IntendedReplacesOnlyTagsLine(content: string, tags: string)
    requires Parse(content).Some? && TagsLine(Parse(content).value.0).Some?
    ensures var p, e := TagsLine(Parse(content).value.0).value.0, TagsLine(Parse(content).value.0).value.1;
            UpdateFrontmatterTagsIntended(content, tags) == content[..4 + p] + ("tags: " + tags) + content[4 + e..]
  {
    var header, rest := Parse(content).value.0, Parse(content).value.1;
    var p, e := TagsLine(header).value.0, TagsLine(header).value.1;
    UpdateHeaderSplices(header, tags, p, e);
    SpliceParsed(content, header, rest, p, e, "tags: " + tags);
  }

  /** Splicing into the header of a parsed document splices into the document. */
  lemma SpliceParsed(content: string, header: string, rest: string, p: nat, e: nat, m: string)
    requires Parse(content) == Some((header, rest))
    requires p <= e <= |header|
    ensures Render(header[..p] + m + header[e..], rest) == content[..4 + p] + m + content[4 + e..]
  {
    RenderParse(content);
    SpliceRender(content, header, rest, p, e, m);
  }

  /** With a tags line, the intended header update splices `tags: <tags>` over it. */
  lemma UpdateHeaderSplices(header: string, tags: string, p: nat, e: nat)
    requires TagsLine(header) == Some((p, e))
    ensures p <= e <= |header|
    ensures UpdateHeader(header, tags) == header[..p] + ("tags: " + tags) + header[e..]
  {
    Assoc3(header[..p], "tags: ", tags);
  }

  /** A document with frontmatter is its header and rest rendered, and the
      intended update renders the updated header with the same rest. */
  lemma IntendedOnParsed(content: string, tags: string) returns (header: string, rest: string)
    requires Parse(content).Some?
    ensures Parse(content) == Some((header, rest))
    ensures content == Render(header, rest)
    ensures UpdateFrontmatterTagsIntended(content, tags) == Render(UpdateHeader(header, tags), rest)
  {
    RenderParse(content);
    header, rest := Parse(content).value.0, Parse(content).value.1;
  }

  lemma SpliceRender(content: string, header: string, rest: string, p: nat, e: nat, m: string)
    requires content == Render(header, rest)
    requires p <= e <= |header|
    ensures Render(header[..p] + m + header[e..], rest) == content[..4 + p] + m + content[4 + e..]
  {
    assert content[..4 + p] == OPEN + header[..p];
    assert content[4 + e..] == header[e..] + CLOSE + rest;
  }

  /** Without a tags line in the frontmatter, the intended update inserts
      `\ntags: <tags>` just before the closing `---` and nothing else. */
  lemma IntendedAppendsTagsLine(content: string, tags: string)
    requires Parse(content).Some? && TagsLine(Parse(content).value.0).None?
    ensures var n := 4 + |Parse(content).value.0|;
            UpdateFrontmatterTagsIntended(content, tags) == content[..n] + "\ntags: " + tags + content[n..]
  {
    var header, rest := IntendedOnParsed(content, tags);
    var m := "\ntags: " + tags;
    var n := 4 + |header|;
    assert UpdateHeader(header, tags) == header + m by {
      Assoc3(header, "\ntags: ", tags);
    }
    AppendRender(content, header, rest, m);
    Assoc3(content[..n], "\ntags: ", tags);
  }

  lemma AppendRender(content: string, header: string, rest: string, m: string)
    requires content == Render(header, rest)
    ensures Render(header + m, rest) == content[..4 + |header|] + m + content[4 + |header|..]
  {
    assert content[..4 + |header|] == OPEN + header;
    assert content[4 + |header|..] == CLOSE + rest;
  }

  // ---------------------------------------------------------------------------
  // Running the as-written update twice

  /** A tags line holds `$` only where the tags do. */
  lemma TagsLineNoDollar(tags: string)
    requires '$' !in tags
    ensures '$' !in "tags: " + tags
  {
    var m := "tags: " + tags;
    forall k | 0 <= k < |m| ensures m[k] != '$' {
      if k >= 6 { assert m[k] == tags[k - 6]; }
    }
  }

  /** After an update that behaves as intended, the next update does too: the
      new frontmatter has a tags line and no `$`. */
  lemma AgreementPersists(content: string, tags: string)
    requires '$' !in tags && OneLine(tags) && ReplacementsAgree(content)
    ensures ReplacementsAgree(UpdateFrontmatterTagsIntended(content, tags))
  {
    var once := UpdateFrontmatterTagsIntended(content, tags);
    IntendedParse(content, tags);
    IntendedSetsTags(content, tags);
    var header := Parse(once).value.0;
    assert TagsLine(header).Some?;
    match Parse(content)
    case None =>
      TagsLineNoDollar(tags);
      assert header == "tags: " + tags;
    case Some((first, _)) =>
      ReplaceTagsLineLiteral(first, tags);
      assert header == UpdateHeader(first, tags);
  }

  /** Running the as-written update twice with the same one-line, `$`-free tags
      on a note whose frontmatter, if any, holds no `$` gives what one run
      gives, so the save hook settles after its own write. Where the update
      works as intended this is the intended update's idempotence; a
      non-empty header without a tags line is left alone both times. The `$`
      condition is needed: in `---\n$&\ntags: x\n---` each run pastes the
      matched block into the header again, so the note grows on every run. */
  lemma AsWrittenIdempotent(content: string, tags: string)
    requires '$' !in tags && OneLine(tags)
    requires Parse(content).Some? ==> '$' !in Parse(content).value.0
    ensures UpdateFrontmatterTags(UpdateFrontmatterTags(content, tags), tags) ==
            UpdateFrontmatterTags(content, tags)
  {
    if ReplacementsAgree(content) {
      var once := UpdateFrontmatterTagsIntended(content, tags);
      AsWrittenIsIntended(content, tags);
      AgreementPersists(content, tags);
      AsWrittenIsIntended(once, tags);
      IntendedIdempotent(content, tags);
    } else {
      AsWrittenSkipsMissingTagsLine(content, tags);
    }
  }

  /** Whatever the note and the tags, the as-written update starts with the
      `---` line: the template of the second replace starts with it and holds
      no `$` there, and a note without a block gets one put in front. */
  lemma AsWrittenStartsWithOpen(content: string, tags: string)
    ensures |UpdateFrontmatterTags(content, tags)| >= 4 && UpdateFrontmatterTags(content, tags)[..4] == OPEN
  {
    if FrontmatterEnd(content).None? {
      NoBlockStartsWithOpen(content, tags);
    } else {
      BlockStartsWithOpen(content, tags, FrontmatterEnd(content).value);
    }
  }

  /** Without a block, the new one is put in front of the note. */
  lemma NoBlockStartsWithOpen(content: string, tags: string)
    requires FrontmatterEnd(content).None?
    ensures |UpdateFrontmatterTags(content, tags)| >= 4 && UpdateFrontmatterTags(content, tags)[..4] == OPEN
  {
    OpenFirst("tags: " + tags + CLOSE + "\n\n" + content, UpdateFrontmatterTags(content, tags));
  }

  /** With a block, the second replace copies the `$`-free `OPEN` first. */
  lemma BlockStartsWithOpen(content: string, tags: string, k: nat)
    requires FrontmatterEnd(content) == Some(k)
    ensures |UpdateFrontmatterTags(content, tags)| >= 4 && UpdateFrontmatterTags(content, tags)[..4] == OPEN
  {
    var header := content[4..k];
    var updated := UpdateHeaderAsWritten(header, tags);
    AsWrittenUnfold(content, tags, k, header, updated);
    assert OPEN + updated + CLOSE == OPEN + (updated + CLOSE);
    TemplatePrefix(OPEN, updated + CLOSE, content[..k + 4], content, [header], content[k + 4..],
                   UpdateFrontmatterTags(content, tags));
  }

  /** A replacement whose template starts with a `$`-free prefix starts with
      that prefix. */
  lemma TemplatePrefix(prefix: string, body: string, matched: string, str: string, captures: seq<string>,
                       rest: string, s: string)
    requires '$' !in prefix && |matched| <= |str|
    requires s == Substitute(prefix + body, matched, str, 0, captures) + rest
    ensures |s| >= |prefix| && s[..|prefix|] == prefix
  {
    SubstituteLiteralPrefix(prefix, body, matched, str, 0, captures);
    var out := Substitute(body, matched, str, 0, captures);
    assert s == prefix + (out + rest);
  }

  /** A text that is `OPEN` followed by anything starts with `OPEN`. */
  lemma OpenFirst(rest: string, s: string)
    requires s == OPEN + rest
    ensures |s| >= 4 && s[..4] == OPEN
  {
  }

  // ---------------------------------------------------------------------------
  // The auto-tag command

  /** The auto-tag command, and the save hook that runs the same steps: classify
      the note, format the tags and write them into the frontmatter. The note's
      frontmatter then carries the classifier's tags on its tags line whenever
      the as-written update behaves as intended. */
  method AutoTag(content: string) returns (updatedContent: string)
    ensures updatedContent == UpdateFrontmatterTags(content, FormatTagsForFrontmatter(Classify(content)))
    ensures ReplacementsAgree(content) ==>
            updatedContent == UpdateFrontmatterTagsIntended(content, FormatTagsForFrontmatter(Classify(content)))
    ensures ReplacementsAgree(content) ==>
            Parse(updatedContent).Some? &&
            TagsLineText(Parse(updatedContent).value.0) == Some("tags: " + FormatTagsForFrontmatter(Classify(content)))
  {
    var tags := AnalyzeAndTagContent(content);
    var formattedTags := FormatTagsForFrontmatter(tags);
    updatedContent := UpdateFrontmatterTags(content, formattedTags);
    FormattedClassifyIsOneLine(content);
    if ReplacementsAgree(content) {
      AsWrittenIsIntended(content, formattedTags);
      IntendedSetsTags(content, formattedTags);
    }
  }
}
