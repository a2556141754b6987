/**
 * Cache-busting of URLs in HTML and Markdown files: a URL that names a local
 * file gets `?v=<hash>` appended (or its existing version replaced), where the
 * hash is taken from the file's modification time.  Code spans are stashed
 * behind numbered placeholders first and put back at the end, so that URLs
 * inside code are left alone.
 *
 * The file system and SHA-256 are parameters: `stat(url)` is the modification
 * time, as text, of the file the URL maps to (`None` when the file cannot be
 * found), and `sha256` is the hex digest function.
 */
module CacheVersions {
  import opened JsStrings

  // ---------------------------------------------------------------------------
  // The version hash (getFileHash)
  // ---------------------------------------------------------------------------

  predicate IsLowerHex(c: char) {
    '0' <= c <= '9' || 'a' <= c <= 'f'
  }

  predicate AllLowerHex(s: string) {
    forall k | 0 <= k < |s| :: IsLowerHex(s[k])
  }

  /** What `digest('hex')` of a SHA-256 hash returns: 64 lower-case hex digits. */
  type Sha256Hex = s: string | |s| == 64 && AllLowerHex(s)
    witness seq(64, k => '0')

  /** The text written after `?v=`. */
  type VersionHash = s: string | |s| == 8 && AllLowerHex(s) witness "00000000"

  /** getFileHash: the first eight hex digits of the digest of the modification time's text. */
  function FileHash(sha256: string -> Sha256Hex, mtime: string): (h: VersionHash)
    ensures StartsWith(sha256(mtime), h)
  {
    var d := sha256(mtime);
    assert AllLowerHex(d[..8]) by {
      forall k | 0 <= k < 8 ensures IsLowerHex(d[..8][k]) {
        assert d[..8][k] == d[k];
      }
    }
    d[..8]
  }

  // ---------------------------------------------------------------------------
  // Which URLs are left alone
  // ---------------------------------------------------------------------------

  predicate NoCloseBrace(s: string, from: nat, to: nat)
    requires from <= to <= |s|
  {
    forall k | from <= k < to :: s[k] != '}'
  }

  /** `/\$\{[^}]+\}/.test(url)`: `${`, one or more characters other than `}`, then `}`. */
  predicate HasTemplateExpression(url: string) {
    exists i, j | 0 <= i < |url| && i + 2 < j < |url| ::
      url[i] == '$' && url[i + 1] == '{' && url[j] == '}' && NoCloseBrace(url, i + 2, j)
  }

  /** `/\{\{[^}]+\}\}/.test(url)`: `{{`, one or more characters other than `}`, then `}}`. */
  predicate HasMustacheExpression(url: string) {
    exists i, j | 0 <= i < |url| && i + 2 < j < |url| - 1 ::
      url[i] == '{' && url[i + 1] == '{' && url[j] == '}' && url[j + 1] == '}' && NoCloseBrace(url, i + 2, j)
  }

  /** The URLs maybeVersionUrl returns untouched without looking at the file system. */
  predicate IsExempt(url: string)
    ensures url != [] && url[0] == '/' && '$' !in url && '{' !in url ==> !IsExempt(url)
  {
    || url == ""
    || StartsWith(url, "http")
    || StartsWith(url, "mailto")
    || StartsWith(url, "tel")
    || StartsWith(url, "data:")
    || HasTemplateExpression(url)
    || HasMustacheExpression(url)
  }

  // ---------------------------------------------------------------------------
  // The version rewrite: `url.includes('?v=') ? url.replace(/(\?v=).*$/, ...) : url + '?v=' + hash`
  // ---------------------------------------------------------------------------

  predicate NoLineTerminator(s: string) {
    forall k | 0 <= k < |s| :: !IsLineTerminator(s[k])
  }

  /**
   * `(\?v=).*$` without flags matches at `i`: `?v=` starts there and `.*` can
   * reach the end of the string, that is, no line terminator follows.
   */
  predicate VersionPatternAt(url: string, i: nat) {
    OccursAt(url, "?v=", i) && NoLineTerminator(url[i + 3..])
  }

  /** Where the regular expression's leftmost match starts, searching from `from`. */
  function FirstVersionPattern(url: string, from: nat): (r: Option<nat>)
    decreases |url| - from
    ensures r.Some? ==> from <= r.value && VersionPatternAt(url, r.value)
    ensures r.Some? ==> forall j :: from <= j < r.value ==> !VersionPatternAt(url, j)
    ensures r.None? ==> forall j :: from <= j ==> !VersionPatternAt(url, j)
  {
    if from + 3 > |url| then None
    else if VersionPatternAt(url, from) then Some(from)
    else FirstVersionPattern(url, from + 1)
  }

  /**
   * The versioned URL of line 85 and lines 154-156.  The replacement text
   * `?v=` + hash holds no `$`, so `replace` takes it literally.
   */
  function VersionUrl(url: string, hash: VersionHash): (r: string)
    ensures r == url || EndsWith(r, "?v=" + hash)
    ensures !Includes(url, "?v=") ==> StartsWith(r, url)
  {
    assert (url + "?v=" + hash)[..|url|] == url;
    assert (url + "?v=" + hash)[|url|..] == "?v=" + hash;
    if Includes(url, "?v=") then
      match FirstVersionPattern(url, 0)
      case Some(i) => url[..i] + "?v=" + hash
      case None => url
    else
      url + "?v=" + hash
  }

  /** The URL without its version: everything before the first `?v=`. */
  function BeforeVersion(url: string): string {
    match IndexOf(url, "?v=")
    case None => url
    case Some(i) => url[..i]
  }

  /** maybeVersionUrl (lines 138-161). */
  function MaybeVersionUrl(url: string, stat: string -> Option<string>, sha256: string -> Sha256Hex): (r: string)
    ensures IsExempt(url) || stat(url).None? ==> r == url
    ensures !IsExempt(url) && stat(url).Some? && (!Includes(url, "?v=") || NoLineTerminator(url)) ==>
      r == BeforeVersion(url) + "?v=" + FileHash(sha256, stat(url).value)
  {
    if IsExempt(url) then url
    else match stat(url)
      case None => url
      case Some(mtime) =>
        var hash := FileHash(sha256, mtime);
        VersionUrlShape(url, hash);
        VersionUrl(url, hash)
  }

  lemma NoLineTerminatorSuffix(s: string, k: nat)
    requires NoLineTerminator(s) && k <= |s|
    ensures NoLineTerminator(s[k..])
  {
    assert forall m | 0 <= m < |s[k..]| :: s[k..][m] == s[k + m];
  }

  lemma HashHasNoLineTerminator(hash: VersionHash)
    ensures NoLineTerminator(hash)
  {
    forall k | 0 <= k < |hash| ensures !IsLineTerminator(hash[k]) {
      assert IsLowerHex(hash[k]);
    }
  }

  /** On a URL without line breaks the pattern matches exactly at the first `?v=`. */
  lemma VersionPatternAtFirstOccurrence(url: string)
    requires NoLineTerminator(url)
    ensures FirstVersionPattern(url, 0) == IndexOf(url, "?v=")
  {
    var first := FirstVersionPattern(url, 0);
    assert first.Some? ==> OccursAt(url, "?v=", first.value);
    match IndexOf(url, "?v=")
    case None =>
    case Some(i) =>
      NoLineTerminatorSuffix(url, i + 3);
      assert VersionPatternAt(url, i);
      assert first.Some? && first.value <= i;
  }

  /**
   * A URL without `?v=` gets `?v=` and the hash appended; on a URL without
   * line breaks, everything from the first `?v=` on becomes `?v=` and the hash.
   */
  lemma VersionUrlShape(url: string, hash: VersionHash)
    ensures !Includes(url, "?v=") || NoLineTerminator(url) ==>
      VersionUrl(url, hash) == BeforeVersion(url) + "?v=" + hash
  {
    if Includes(url, "?v=") && NoLineTerminator(url) {
      VersionPatternAtFirstOccurrence(url);
    }
  }

  /** Where the pattern matches, no line terminator appears from the `?v=` on. */
  lemma NoLineTerminatorFrom(url: string, i: nat)
    requires VersionPatternAt(url, i)
    ensures forall m | i <= m < |url| :: !IsLineTerminator(url[m])
  {
    forall m | i <= m < |url| ensures !IsLineTerminator(url[m]) {
      if m >= i + 3 {
        assert url[i + 3..][m - i - 3] == url[m];
      } else {
        assert url[i..i + 3][m - i] == url[m];
      }
    }
  }

  lemma AppendedVersionMatchesAtEnd(url: string, hash: VersionHash)
    requires !Includes(url, "?v=")
    ensures FirstVersionPattern(url + "?v=" + hash, 0) == Some(|url|)
  {
    var v := url + "?v=" + hash;
    IncludesIff(url, "?v=");
    forall j: nat | j < |url| ensures !VersionPatternAt(v, j) {
      if j + 3 <= |url| {
        assert v[j..j + 3] == url[j..j + 3];
        assert !OccursAt(url, "?v=", j);
      } else if j + 2 == |url| {
        assert v[j + 2] == '?';
        if j + 3 <= |v| { assert v[j..j + 3][2] == v[j + 2]; }
      } else {
        assert v[j + 1] == '?';
        if j + 3 <= |v| { assert v[j..j + 3][1] == v[j + 1]; }
      }
    }
    assert v[|url|..|url| + 3] == "?v=";
    assert v[|url| + 3..] == hash;
    HashHasNoLineTerminator(hash);
    assert VersionPatternAt(v, |url|);
  }

  lemma ReplacedVersionMatchesAgain(url: string, i: nat, hash: VersionHash)
    requires FirstVersionPattern(url, 0) == Some(i)
    ensures FirstVersionPattern(url[..i] + "?v=" + hash, 0) == Some(i)
  {
    var v := url[..i] + "?v=" + hash;
    assert VersionPatternAt(url, i);
    assert v[..i + 3] == url[..i + 3];
    forall j: nat | j < i ensures !VersionPatternAt(v, j) {
      assert !VersionPatternAt(url, j);
      if OccursAt(v, "?v=", j) {
        assert v[j..j + 3] == url[j..j + 3];
        assert OccursAt(url, "?v=", j);
        // the line terminator after position j in url lies before position i
        var k :| 0 <= k < |url[j + 3..]| && IsLineTerminator(url[j + 3..][k]);
        var m := j + 3 + k;
        assert url[j + 3..][k] == url[m];
        NoLineTerminatorFrom(url, i);
        assert m < i;
        assert v[j + 3..][k] == v[m] == url[m];
      }
    }
    assert v[i..i + 3] == "?v=";
    assert v[i + 3..] == hash;
    HashHasNoLineTerminator(hash);
    assert VersionPatternAt(v, i);
  }

  /** Versioning twice leaves only the second hash: the last hash wins. */
  lemma LastHashWins(url: string, h1: VersionHash, h2: VersionHash)
    ensures VersionUrl(VersionUrl(url, h1), h2) == VersionUrl(url, h2)
  {
    if !Includes(url, "?v=") {
      var v := url + "?v=" + h1;
      AppendedVersionMatchesAtEnd(url, h1);
      assert OccursAt(v, "?v=", |url|) by { assert v[|url|..|url| + 3] == "?v="; }
      IncludesIff(v, "?v=");
      assert v[..|url|] == url;
    } else {
      match FirstVersionPattern(url, 0)
      case None =>
      case Some(i) =>
        var v := url[..i] + "?v=" + h1;
        ReplacedVersionMatchesAgain(url, i, h1);
        assert OccursAt(v, "?v=", i) by { assert v[i..i + 3] == "?v="; }
        IncludesIff(v, "?v=");
        assert v[..i] == url[..i];
    }
  }

  /** Versioning with the same hash again changes nothing. */
  lemma VersionUrlIdempotent(url: string, hash: VersionHash)
    ensures VersionUrl(VersionUrl(url, hash), hash) == VersionUrl(url, hash)
  {
    LastHashWins(url, hash, hash);
  }

  // ---------------------------------------------------------------------------
  // Step 2: the import map's `imports` object (lines 39-43)
  // ---------------------------------------------------------------------------

  /** Builds `updatedImports`: the same keys, each URL passed through maybeVersionUrl. */
  method VersionImports(imports: map<string, string>, stat: string -> Option<string>, sha256: string -> Sha256Hex)
    returns (updated: map<string, string>)
    ensures updated.Keys == imports.Keys
    ensures forall key | key in imports :: updated[key] == MaybeVersionUrl(imports[key], stat, sha256)
  {
    updated := map[];
    var pending := imports.Keys;
    while pending != {}
      invariant pending <= imports.Keys
      invariant updated.Keys == imports.Keys - pending
      invariant forall key | key in updated :: updated[key] == MaybeVersionUrl(imports[key], stat, sha256)
      decreases pending
    {
      var key :| key in pending;
      updated := updated[key := MaybeVersionUrl(imports[key], stat, sha256)];
      pending := pending - {key};
    }
  }

  // ---------------------------------------------------------------------------
  // Step 3: which matched tags and URLs are rewritten (lines 62 and 66-75)
  // ---------------------------------------------------------------------------

  predicate AllJsSpace(s: string) {
    forall k | 0 <= k < |s| :: IsJsSpace(s[k])
  }

  /** `/template\s+is="e-json"/.test(tagName)` */
  predicate NamesEJsonTemplate(tagName: string) {
    exists i, j | 0 <= i < |tagName| && i + 8 < j <= |tagName| ::
      OccursAt(tagName, "template", i) && AllJsSpace(tagName[i + 8..j]) && OccursAt(tagName, "is=\"e-json\"", j)
  }

  /** `toBeProcessed`, for the tag name the pattern captured and the attribute's URL. */
  predicate ToBeProcessed(matchedTag: string, url: string)
    ensures ToBeProcessed(matchedTag, url) ==> !IsExempt(url)
  {
    var tagName := AsciiLower(matchedTag);
    && url != ""
    && !NamesEJsonTemplate(tagName)
    && tagName != "e-json"
    && tagName != "a"
    && !StartsWith(url, "http")
    && !StartsWith(url, "mailto")
    && !StartsWith(url, "tel")
    && !StartsWith(url, "data:")
    && !HasTemplateExpression(url)
    && !HasMustacheExpression(url)
  }

  lemma LowerCaseUnchanged(s: string)
    requires forall k | 0 <= k < |s| :: !('A' <= s[k] <= 'Z')
    ensures AsciiLower(s) == s
  {
  }

  /** `e-json` elements are never rewritten. */
  lemma EJsonTagIsSkipped(url: string)
    ensures !ToBeProcessed("e-json", url)
  {
    LowerCaseUnchanged("e-json");
  }

  /** `template is="e-json"` elements are never rewritten, whatever white space separates the two words. */
  lemma EJsonTemplateIsSkipped(space: string, url: string)
    requires space != [] && AllJsSpace(space)
    ensures !ToBeProcessed("template" + space + "is=\"e-json\"", url)
  {
    var t := "template" + space + "is=\"e-json\"";
    var j := 8 + |space|;
    assert t[..8] == "template";
    assert t[8..j] == space;
    assert t[j..j + 11] == "is=\"e-json\"";
    forall k | 0 <= k < |t| ensures !('A' <= t[k] <= 'Z') {
      if k >= 8 && k < j { assert t[k] == space[k - 8]; assert IsJsSpace(space[k - 8]); }
    }
    LowerCaseUnchanged(t);
    assert OccursAt(t, "template", 0) && AllJsSpace(t[8..j]) && OccursAt(t, "is=\"e-json\"", j);
  }

  /** For every other tag, Step 3 rewrites exactly the URLs maybeVersionUrl does not exempt. */
  lemma StepThreeAgreesWithMaybeVersionUrl(matchedTag: string, url: string)
    requires !NamesEJsonTemplate(AsciiLower(matchedTag))
    requires AsciiLower(matchedTag) != "e-json" && AsciiLower(matchedTag) != "a"
    ensures ToBeProcessed(matchedTag, url) <==> !IsExempt(url)
  {
  }

  // ---------------------------------------------------------------------------
  // processDirectory's file filter (line 111)
  // ---------------------------------------------------------------------------

  predicate IsMarkupFile(name: string) {
    EndsWith(name, ".html") || EndsWith(name, ".md")
  }

  /** `files.filter(file => file.endsWith('.html') || file.endsWith('.md'))` */
  function MarkupFiles(files: seq<string>): (r: seq<string>)
    ensures forall f | f in r :: IsMarkupFile(f)
    ensures forall f {:trigger multiset(r)[f]} | IsMarkupFile(f) :: multiset(r)[f] == multiset(files)[f]
    ensures forall f | !IsMarkupFile(f) :: f !in r
    ensures |r| <= |files|
  {
    if files == [] then []
    else
      assert files == [files[0]] + files[1..];
      if IsMarkupFile(files[0]) then [files[0]] + MarkupFiles(files[1..])
      else MarkupFiles(files[1..])
  }
  /** The filter keeps order: filtering a concatenation concatenates the filtered parts. */
  lemma {:induction false} MarkupFilesAppend(a: seq<string>, b: seq<string>)
    decreases |a|
    ensures MarkupFiles(a + b) == MarkupFiles(a) + MarkupFiles(b)
  {
    if a == [] {
      assert a + b == b;
    } else {
      var head := if IsMarkupFile(a[0]) then [a[0]] else [];
      assert a == [a[0]] + a[1..];
      assert a + b == [a[0]] + (a[1..] + b);
      MarkupFilesCons(a[0], a[1..]);
      MarkupFilesCons(a[0], a[1..] + b);
      MarkupFilesAppend(a[1..], b);
      assert head + (MarkupFiles(a[1..]) + MarkupFiles(b)) == (head + MarkupFiles(a[1..])) + MarkupFiles(b);
    }
  }

  lemma MarkupFilesCons(name: string, rest: seq<string>)
    ensures MarkupFiles([name] + rest) == (if IsMarkupFile(name) then [name] else []) + MarkupFiles(rest)
  {
    assert ([name] + rest)[0] == name && ([name] + rest)[1..] == rest;
  }

  /** A single name is kept exactly when it is a markup file. */
  lemma MarkupFilesSingle(name: string)
    ensures MarkupFiles([name]) == if IsMarkupFile(name) then [name] else []
  {
    assert [name][1..] == [];
  }


  // ---------------------------------------------------------------------------
  // Steps 1 and 4: stashing code spans and putting them back
  // ---------------------------------------------------------------------------

  const Marker: string := "___CODE_BLOCK_"

  /** `___CODE_BLOCK_${i}___` */
  function Placeholder(i: nat): string {
    Marker + NatToString(i) + "___"
  }

  predicate HasNoMarker(s: string) {
    forall i: nat | i < |s| :: !OccursAt(s, Marker, i)
  }

  predicate IsCodeSpan(b: string) {
    |b| >= 2 && b[0] == '`' && b[|b| - 1] == '`'
  }

  /**
   * The length of the match of /```[\s\S]*?```|`[^`]*`/ at the start of `s`:
   * a fenced block up to the nearest closing triple backtick, or else an
   * inline span up to the next backtick.
   */
  function CodeSpanAt(s: string): (r: Option<nat>)
    ensures r.Some? ==> r.value <= |s| && IsCodeSpan(s[..r.value])
  {
    if StartsWith(s, "```") && IndexOfFrom(s, "```", 3).Some? then
      var q := IndexOfFrom(s, "```", 3).value;
      assert s[q..q + 3] == "```";
      Some(q + 3)
    else if s != [] && s[0] == '`' && IndexOfFrom(s, "`", 1).Some? then
      var q := IndexOfFrom(s, "`", 1).value;
      assert s[q..q + 1] == "`";
      Some(q + 1)
    else
      None
  }

  /**
   * Step 1 as a function: the global `replace` scans left to right, and each
   * match is swapped for the next placeholder, numbered from `n`.  Returns the
   * rewritten text and the stashed spans in order of appearance.
   */
  function Stash(s: string, n: nat): (r: (string, seq<string>))
    decreases |s|
    ensures forall k | 0 <= k < |r.1| :: IsCodeSpan(r.1[k])
  {
    if s == [] then ([], [])
    else match CodeSpanAt(s)
      case Some(len) =>
        var rest := Stash(s[len..], n + 1);
        (Placeholder(n) + rest.0, [s[..len]] + rest.1)
      case None =>
        var rest := Stash(s[1..], n);
        ([s[0]] + rest.0, rest.1)
  }

  /** Step 4 with each span put back literally: placeholder `from + k` is replaced by `blocks[k]`, in order. */
  function Restore(content: string, blocks: seq<string>, from: nat): string
    decreases |blocks|
  {
    if blocks == [] then content
    else Restore(ReplaceFirstLiteral(content, Placeholder(from), blocks[0]), blocks[1..], from + 1)
  }

  /** Step 4 as line 102 writes it: `replace` with the span as replacement pattern, so `$` sequences in it are interpreted. */
  function RestoreAsWritten(content: string, blocks: seq<string>, from: nat): (r: string)
    decreases |blocks|
    ensures (forall k | 0 <= k < |blocks| :: '$' !in blocks[k]) ==> r == Restore(content, blocks, from)
  {
    if blocks == [] then content
    else
      ReplaceFirstWithoutDollar(content, Placeholder(from), blocks[0]);
      RestoreAsWritten(ReplaceFirst(content, Placeholder(from), blocks[0]), blocks[1..], from + 1)
  }

  /** Step 1 (lines 19-25): pushes each span onto `codeBlocks` and writes its placeholder instead. */
  method StashCodeBlocks(content: string) returns (stashed: string, codeBlocks: seq<string>)
    ensures (stashed, codeBlocks) == Stash(content, 0)
    ensures forall k | 0 <= k < |codeBlocks| :: IsCodeSpan(codeBlocks[k])
  {
    stashed, codeBlocks := "", [];
    var rest, count := content, 0;
    ghost var total := Stash(content, 0);
    while rest != []
      invariant StashedSoFar(rest, stashed, codeBlocks, count, total)
      decreases |rest|
    {
      var span := CodeSpanAt(rest);
      if span.Some? {
        StashLoopSpan(rest, span.value, stashed, codeBlocks, count, total);
        stashed, codeBlocks := stashed + Placeholder(count), codeBlocks + [rest[..span.value]];
        rest, count := rest[span.value..], count + 1;
      } else {
        StashLoopChar(rest, stashed, codeBlocks, count, total);
        stashed, rest := stashed + [rest[0]], rest[1..];
      }
    }
    assert Stash(rest, count) == ([], []);
    assert stashed + [] == stashed && codeBlocks + [] == codeBlocks;
  }

  /** What the stashing loop has written so far, followed by what `Stash` makes of the rest, is the whole result. */
  predicate StashedSoFar(rest: string, stashed: string, codeBlocks: seq<string>, n: nat, total: (string, seq<string>)) {
    stashed + Stash(rest, n).0 == total.0 && codeBlocks + Stash(rest, n).1 == total.1
  }

  /** One step of the stashing loop over a code span. */
  lemma StashLoopSpan(rest: string, len: nat, stashed: string, codeBlocks: seq<string>, n: nat, total: (string, seq<string>))
    requires rest != [] && CodeSpanAt(rest) == Some(len)
    requires StashedSoFar(rest, stashed, codeBlocks, n, total)
    ensures StashedSoFar(rest[len..], stashed + Placeholder(n), codeBlocks + [rest[..len]], n + 1, total)
  {
    StashSpan(rest, n, len);
    ConcatAssoc(stashed, Placeholder(n), Stash(rest[len..], n + 1).0);
    ConcatAssoc(codeBlocks, [rest[..len]], Stash(rest[len..], n + 1).1);
  }

  /** One step of the stashing loop over a character that starts no code span. */
  lemma StashLoopChar(rest: string, stashed: string, codeBlocks: seq<string>, n: nat, total: (string, seq<string>))
    requires rest != [] && CodeSpanAt(rest).None?
    requires StashedSoFar(rest, stashed, codeBlocks, n, total)
    ensures StashedSoFar(rest[1..], stashed + [rest[0]], codeBlocks, n, total)
  {
    StashChar(rest, n);
    ConcatAssoc(stashed, [rest[0]], Stash(rest[1..], n).0);
  }

  lemma StashSpan(s: string, n: nat, len: nat)
    requires s != [] && CodeSpanAt(s) == Some(len)
    ensures Stash(s, n).0 == Placeholder(n) + Stash(s[len..], n + 1).0
    ensures Stash(s, n).1 == [s[..len]] + Stash(s[len..], n + 1).1
  {
  }

  lemma StashChar(s: string, n: nat)
    requires s != [] && CodeSpanAt(s).None?
    ensures Stash(s, n).0 == [s[0]] + Stash(s[1..], n).0
    ensures Stash(s, n).1 == Stash(s[1..], n).1
  {
  }

  /** Step 4 (lines 101-103), with each span put back literally. */
  method RestoreCodeBlocks(content: string, codeBlocks: seq<string>) returns (restored: string)
    ensures restored == Restore(content, codeBlocks, 0)
  {
    restored := content;
    for i := 0 to |codeBlocks|
      invariant Restore(restored, codeBlocks[i..], i) == Restore(content, codeBlocks, 0)
    {
      assert codeBlocks[i..][1..] == codeBlocks[i + 1..];
      restored := ReplaceFirstLiteral(restored, Placeholder(i), codeBlocks[i]);
    }
  }

  lemma IndexOfAt(s: string, p: string, k: nat)
    requires OccursAt(s, p, k)
    requires forall j: nat | j < k :: !OccursAt(s, p, j)
    ensures IndexOf(s, p) == Some(k)
  {
  }

  lemma NoMarkerInPrefix(s: string, k: nat)
    requires HasNoMarker(s) && k <= |s|
    ensures HasNoMarker(s[..k])
  {
    forall i: nat | OccursAt(s[..k], Marker, i) ensures OccursAt(s, Marker, i) {
      assert s[..k][i..i + |Marker|] == s[i..i + |Marker|];
    }
  }

  lemma PlaceholderShape(n: nat)
    ensures |Placeholder(n)| >= 18
    ensures Placeholder(n)[..14] == Marker
    ensures IsDigit(Placeholder(n)[14])
    ensures IsDigit(Placeholder(n)[15]) || Placeholder(n)[15] == '_'
    ensures IsDigit(Placeholder(n)[16]) || Placeholder(n)[16] == '_'
  {
    var d := NatToString(n);
    var p := Placeholder(n);
    assert p[14] == d[0];
    if |d| >= 2 { assert p[15] == d[1]; } else { assert p[15] == '_'; }
    if |d| >= 3 { assert p[16] == d[2]; } else { assert p[16] == "___"[16 - 14 - |d|]; }
  }

  /** A placeholder does not overlap itself at a shift of 1 to 13 characters. */
  lemma PlaceholderShiftMismatch(n: nat, d: nat) returns (t: nat)
    requires 1 <= d <= 13
    ensures t + d < 17 && Placeholder(n)[t + d] != Placeholder(n)[t]
  {
    var p := Placeholder(n);
    PlaceholderShape(n);
    assert forall k | 0 <= k < 14 :: p[k] == Marker[k];
    if d == 1 {
      t := 2;
    } else if d == 2 {
      t := 1;
    } else if d == 3 {
      t := 0;
    } else if d == 8 {
      t := 4;
    } else {
      t := 3;
    }
  }

  /** After text without the marker, the first occurrence of placeholder `n` is the one that follows it. */
  lemma PlaceholderFoundAfter(prefix: string, n: nat, rest: string)
    requires HasNoMarker(prefix)
    ensures IndexOf(prefix + Placeholder(n) + rest, Placeholder(n)) == Some(|prefix|)
  {
    var c := prefix + Placeholder(n) + rest;
    var p := Placeholder(n);
    PlaceholderShape(n);
    assert c[|prefix|..|prefix| + |p|] == p;
    forall j: nat | j < |prefix| ensures !OccursAt(c, p, j) {
      if j + 14 <= |prefix| {
        assert !OccursAt(prefix, Marker, j);
        assert c[j..j + 14] == prefix[j..j + 14];
        if j + |p| <= |c| { assert c[j..j + |p|][..14] == c[j..j + 14]; }
      } else {
        var d := |prefix| - j;
        var t := PlaceholderShiftMismatch(n, d);
        assert c[|prefix| + t] == p[t];
        if j + |p| <= |c| { assert c[j..j + |p|][t + d] == c[j + t + d]; }
      }
    }
    IndexOfAt(c, p, |prefix|);
  }

  lemma ReplaceAtPlaceholder(prefix: string, n: nat, rest: string, block: string)
    requires HasNoMarker(prefix)
    ensures ReplaceFirstLiteral(prefix + Placeholder(n) + rest, Placeholder(n), block) == prefix + block + rest
  {
    var c := prefix + Placeholder(n) + rest;
    PlaceholderFoundAfter(prefix, n, rest);
    assert c[..|prefix|] == prefix;
    assert c[|prefix| + |Placeholder(n)|..] == rest;
  }

  /** One step of the round trip's induction: the placeholder of a span is the first one the restore finds. */
  lemma RestoreSpanStep(prefix: string, s: string, n: nat, len: nat)
    requires s != [] && CodeSpanAt(s) == Some(len) && HasNoMarker(prefix + s)
    requires Restore((prefix + s[..len]) + Stash(s[len..], n + 1).0, Stash(s[len..], n + 1).1, n + 1)
      == (prefix + s[..len]) + s[len..]
    ensures Restore(prefix + Stash(s, n).0, Stash(s, n).1, n) == prefix + s
  {
    var rest := Stash(s[len..], n + 1);
    var block := s[..len];
    var p := Placeholder(n);
    StashSpan(s, n, len);
    assert prefix == (prefix + s)[..|prefix|];
    NoMarkerInPrefix(prefix + s, |prefix|);
    ReplaceAtPlaceholder(prefix, n, rest.0, block);
    ConcatAssoc(prefix, p, rest.0);
    var blocks := Stash(s, n).1;
    assert blocks[0] == block && blocks[1..] == rest.1;
    assert s == block + s[len..];
    ConcatAssoc(prefix, block, s[len..]);
  }

  /** The induction behind the round trip: restoring what was stashed after any marker-free prefix. */
  lemma {:induction false} RestoreStashFrom(prefix: string, s: string, n: nat)
    requires HasNoMarker(prefix + s)
    ensures Restore(prefix + Stash(s, n).0, Stash(s, n).1, n) == prefix + s
    decreases |s|
  {
    if s == [] {
      assert prefix + [] == prefix;
    } else {
      match CodeSpanAt(s)
      case Some(len) =>
        assert s == s[..len] + s[len..];
        ConcatAssoc(prefix, s[..len], s[len..]);
        RestoreStashFrom(prefix + s[..len], s[len..], n + 1);
        RestoreSpanStep(prefix, s, n, len);
      case None =>
        assert s == [s[0]] + s[1..];
        ConcatAssoc(prefix, [s[0]], s[1..]);
        RestoreStashFrom(prefix + [s[0]], s[1..], n);
        StashChar(s, n);
        ConcatAssoc(prefix, [s[0]], Stash(s[1..], n).0);
    }
  }

  /** Stash followed by (literal) restore gives back the original text, if it holds no `___CODE_BLOCK_`. */
  lemma RestoreUndoesStash(s: string)
    requires HasNoMarker(s)
    ensures Restore(Stash(s, 0).0, Stash(s, 0).1, 0) == s
  {
    assert [] + s == s;
    RestoreStashFrom([], s, 0);
    assert [] + Stash(s, 0).0 == Stash(s, 0).0;
  }

  /** The restore as written undoes the stash when, in addition, no stashed span contains `$`. */
  lemma RestoreAsWrittenUndoesStash(s: string)
    requires HasNoMarker(s)
    requires forall k | 0 <= k < |Stash(s, 0).1| :: '$' !in Stash(s, 0).1[k]
    ensures RestoreAsWritten(Stash(s, 0).0, Stash(s, 0).1, 0) == s
  {
    RestoreUndoesStash(s);
  }

  /** The code span `` `$$` `` comes back from the restore as written as `` `$` ``. */
  lemma RestoreAsWrittenLosesDollar()
    ensures Stash("`$$`", 0) == (Placeholder(0), ["`$$`"])
    ensures RestoreAsWritten(Stash("`$$`", 0).0, Stash("`$$`", 0).1, 0) == "`$`"
  {
    var s := "`$$`";
    assert s[0..3][1] == '$';
    assert !OccursAt(s, "```", 0);
    assert IndexOfFrom(s, "`", 1) == Some(3) by {
      assert s[3..4] == "`";
      assert s[1..2][0] == '$' && s[2..3][0] == '$';
      assert OccursAt(s, "`", 3);
      assert !OccursAt(s, "`", 1) && !OccursAt(s, "`", 2);
      IndexOfFromAt(s, "`", 1, 3);
    }
    assert CodeSpanAt(s) == Some(4);
    assert s[4..] == [] && s[..4] == s;
    var p := Placeholder(0);
    assert Stash(s[4..], 1) == ([], []);
    assert p + [] == p && [s] + [] == [s];
    assert Stash(s, 0) == (p, [s]);
    PlaceholderFoundAfter([], 0, []);
    assert [] + p + [] == p;
    assert p[..0] == [] && p[|p|..] == [];
    assert ReplaceFirst(p, p, s) == Substitute(s, p, [], []);
    assert Substitute(s, p, [], []) == "`$`" by {
      assert s[1..] == "$$`" && s[1..][2..] == "`";
      assert Substitute("`", p, [], []) == "`";
      assert Substitute("$$`", p, [], []) == "$`";
    }
    assert RestoreAsWritten(p, [s], 0) == RestoreAsWritten(ReplaceFirst(p, p, s), [], 1);
  }

  lemma IndexOfFromAt(s: string, p: string, from: nat, k: nat)
    requires from <= k && OccursAt(s, p, k)
    requires forall j: nat | from <= j < k :: !OccursAt(s, p, j)
    ensures IndexOfFrom(s, p, from) == Some(k)
  {
  }
}
