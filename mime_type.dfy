/**
 * The MIME type of a file name: Node's POSIX `path.extname`, lower-cased,
 * trimmed, the text after its dot looked up in the MIME table, and the table's
 * `txt` entry when that lookup gives nothing truthy.  The table itself is a
 * parameter.
 */
module MimeTypes {
  import opened JsStrings

  // ---------------------------------------------------------------------------
  // path.extname on POSIX paths
  // ---------------------------------------------------------------------------

  /** The end of the base name: trailing `/` characters before index `e` are not part of it. */
  function BaseEnd(p: string, e: nat): (r: nat)
    requires e <= |p|
    decreases e
    ensures r <= e
    ensures r > 0 ==> p[r - 1] != '/'
    ensures forall k | r <= k < e :: p[k] == '/'
  {
    if e > 0 && p[e - 1] == '/' then BaseEnd(p, e - 1) else e
  }

  /** The last index in `[lo, hi)` holding `c`. */
  function LastIndexIn(p: string, c: char, lo: nat, hi: nat): (r: Option<nat>)
    requires lo <= hi <= |p|
    decreases hi - lo
    ensures r.Some? ==> lo <= r.value < hi && p[r.value] == c
    ensures r.Some? ==> forall k | r.value < k < hi :: p[k] != c
    ensures r.None? ==> forall k | lo <= k < hi :: p[k] != c
  {
    if lo == hi then None
    else if p[hi - 1] == c then Some(hi - 1)
    else LastIndexIn(p, c, lo, hi - 1)
  }

  /** Where the base name starts: just after the last `/` before its end. */
  function BaseStart(p: string): (r: nat)
    ensures r <= BaseEnd(p, |p|)
    ensures r > 0 ==> p[r - 1] == '/'
    ensures forall k | r <= k < BaseEnd(p, |p|) :: p[k] != '/'
  {
    var e := BaseEnd(p, |p|);
    match LastIndexIn(p, '/', 0, e)
    case None => 0
    case Some(k) => k + 1
  }

  /**
   * Where `path.extname(p)` lies in `p`: from the last `.` of the base name to
   * its end.  Empty (`(0, 0)`) when the base name is empty, has no dot, has
   * its last dot as its first character (a dotfile such as `.bashrc`), or is `..`.
   */
  function ExtBounds(p: string): (b: (nat, nat))
    ensures b.0 <= b.1 <= |p|
    ensures b.0 < b.1 ==> p[b.0] == '.' && forall k | b.0 < k < b.1 :: p[k] != '.' && p[k] != '/'
    ensures b.0 < b.1 ==> BaseStart(p) <= b.0 && b.1 == BaseEnd(p, |p|)
  {
    var e := BaseEnd(p, |p|);
    var s := BaseStart(p);
    match LastIndexIn(p, '.', s, e)
    case None => (0, 0)
    case Some(d) =>
      if d == s then (0, 0)
      else if e - s == 2 && d == s + 1 && p[s] == '.' then (0, 0)
      else (d, e)
  }

  /** `path.extname(p)` */
  function ExtName(p: string): (r: string)
    ensures r == "" || (r[0] == '.' && '.' !in r[1..] && '/' !in r)
  {
    var b := ExtBounds(p);
    var r := p[b.0..b.1];
    assert forall k | 0 <= k < |r| :: r[k] == p[b.0 + k];
    r
  }

  // ---------------------------------------------------------------------------
  // mimeType
  // ---------------------------------------------------------------------------

  /**
   * `ext.toLowerCase().trim().split('.')[1]`, used as a property name: the
   * text after the first dot, or `"undefined"` when there is no such part.
   */
  function LookupKey(ext: string): (key: string)
    ensures '.' in Trim(AsciiLower(ext)) ==> '.' !in key
    ensures '.' !in Trim(AsciiLower(ext)) ==> key == "undefined"
  {
    var parts := Split(Trim(AsciiLower(ext)), '.');
    if |parts| >= 2 then parts[1] else "undefined"
  }

  /** A property of the table, `None` when it is missing (`undefined`). */
  function Lookup(table: map<string, string>, key: string): Option<string> {
    if key in table then Some(table[key]) else None
  }

  /** `mimeTypes[key] || mimeTypes['txt']`; `None` stands for `undefined`. */
  function MimeType(table: map<string, string>, file: string): (r: Option<string>)
    ensures var key := LookupKey(ExtName(file));
      if key in table && table[key] != "" then r == Some(table[key]) else r == Lookup(table, "txt")
  {
    var found := Lookup(table, LookupKey(ExtName(file)));
    if found.Some? && found.value != "" then found else Lookup(table, "txt")
  }

  // ---------------------------------------------------------------------------
  // Properties
  // ---------------------------------------------------------------------------

  /** A path that is empty or ends in `/` is a directory part: nothing of it belongs to the base name that follows. */
  predicate IsDirectoryPart(prefix: string) {
    prefix == "" || prefix[|prefix| - 1] == '/'
  }

  lemma BaseOf(prefix: string, base: string)
    requires IsDirectoryPart(prefix) && base != [] && '/' !in base
    ensures BaseEnd(prefix + base, |prefix + base|) == |prefix + base|
    ensures BaseStart(prefix + base) == |prefix|
  {
    var p := prefix + base;
    assert base[|base| - 1] in base;
    assert p[|p| - 1] == base[|base| - 1];
    forall k | |prefix| <= k < |p| ensures p[k] != '/' {
      assert p[k] == base[k - |prefix|];
      assert base[k - |prefix|] in base;
    }
    if prefix != "" {
      assert p[|prefix| - 1] == '/';
      assert LastIndexIn(p, '/', 0, |p|) == Some(|prefix| - 1);
    } else {
      assert LastIndexIn(p, '/', 0, |p|) == None;
    }
  }

  lemma NameShape(stem: string, ext: string)
    requires '/' !in stem && '/' !in ext && '.' !in ext
    ensures '/' !in stem + "." + ext
    ensures forall k | |stem| < k < |stem + "." + ext| :: (stem + "." + ext)[k] != '.'
  {
    var base := stem + "." + ext;
    forall k | 0 <= k < |base| ensures base[k] != '/' && (k > |stem| ==> base[k] != '.') {
      if k < |stem| { assert base[k] == stem[k] && stem[k] in stem; }
      else if k > |stem| { assert base[k] == ext[k - |stem| - 1] && ext[k - |stem| - 1] in ext; }
    }
  }

  /** The extension of a path whose base name `p[s..]` has its last dot at `d`, not as its first character. */
  lemma ExtBoundsAt(p: string, s: nat, d: nat)
    requires BaseEnd(p, |p|) == |p| && BaseStart(p) == s
    requires s < d < |p| && p[d] == '.'
    requires forall k | d < k < |p| :: p[k] != '.'
    requires d > s + 1 || p[s] != '.'
    ensures ExtBounds(p) == (d, |p|)
    ensures ExtName(p) == p[d..]
  {
    assert LastIndexIn(p, '.', s, |p|) == Some(d);
  }

  /** The characters of `prefix + stem + "." + ext` from the dot on. */
  lemma NameAfterStem(p: string, prefix: string, stem: string, ext: string)
    requires p == prefix + stem + "." + ext && '.' !in ext
    ensures p[|prefix| + |stem|] == '.'
    ensures forall k | |prefix| + |stem| < k < |p| :: p[k] != '.'
    ensures p[|prefix| + |stem|..] == "." + ext
    ensures forall k | 0 <= k < |stem| :: p[|prefix| + k] == stem[k]
  {
    var d := |prefix| + |stem|;
    forall k | d < k < |p| ensures p[k] != '.' {
      assert p[k] == ext[k - d - 1] && ext[k - d - 1] in ext;
    }
    assert p[d..] == "." + ext;
  }

  /** Only the last extension counts (`a.tar.gz` gives `.gz`), whatever directories precede the name. */
  lemma ExtNameIsLastExtension(prefix: string, stem: string, ext: string)
    requires IsDirectoryPart(prefix)
    requires '/' !in stem && '/' !in ext && '.' !in ext
    requires exists k | 0 <= k < |stem| :: stem[k] != '.'
    ensures ExtName(prefix + stem + "." + ext) == "." + ext
  {
    var p := prefix + stem + "." + ext;
    var base := stem + "." + ext;
    NameShape(stem, ext);
    ConcatAssoc(prefix, stem + ".", ext);
    ConcatAssoc(prefix, stem, ".");
    assert p == prefix + base;
    BaseOf(prefix, base);
    NameAfterStem(p, prefix, stem, ext);
    if |stem| == 1 {
      var i :| 0 <= i < |stem| && stem[i] != '.';
      assert i == 0 && p[|prefix| + 0] == stem[0];
    }
    ExtBoundsAt(p, |prefix|, |prefix| + |stem|);
  }

  /** A base name without a dot has no extension, even under a directory whose name has one. */
  lemma ExtNameWithoutDot(prefix: string, base: string)
    requires IsDirectoryPart(prefix) && base != [] && '/' !in base && '.' !in base
    ensures ExtName(prefix + base) == ""
  {
    var p := prefix + base;
    BaseOf(prefix, base);
    forall k | |prefix| <= k < |p| ensures p[k] != '.' {
      assert p[k] == base[k - |prefix|] && base[k - |prefix|] in base;
    }
  }

  /** A dotfile whose only dot is the leading one has no extension. */
  lemma DotfileHasNoExtension(prefix: string, name: string)
    requires IsDirectoryPart(prefix) && '/' !in name && '.' !in name
    ensures ExtName(prefix + "." + name) == ""
  {
    var base := "." + name;
    var p := prefix + base;
    assert '/' !in base by {
      forall k | 0 <= k < |base| ensures base[k] != '/' {
        if k > 0 { assert base[k] == name[k - 1] && name[k - 1] in name; }
      }
    }
    assert p == prefix + "." + name;
    BaseOf(prefix, base);
    forall k | |prefix| < k < |p| ensures p[k] != '.' {
      assert p[k] == name[k - |prefix| - 1] && name[k - |prefix| - 1] in name;
    }
    assert p[|prefix|] == '.';
    assert LastIndexIn(p, '.', |prefix|, |p|) == Some(|prefix|);
  }

  /** A file without an extension gets the `txt` entry, unless the table has an `undefined` property. */
  lemma NoExtensionGetsDefault(table: map<string, string>, file: string)
    requires ExtName(file) == "" && "undefined" !in table
    ensures MimeType(table, file) == Lookup(table, "txt")
  {
    EmptyLookupKey();
  }

  lemma EmptyLookupKey()
    ensures LookupKey("") == "undefined"
  {
    assert Trim(AsciiLower("")) == "";
  }

  lemma LowerCaseAfterDot(ext: string)
    ensures AsciiLower("." + ext) == "." + AsciiLower(ext)
  {
    var lowered := AsciiLower("." + ext);
    forall k | 0 <= k < |lowered| ensures lowered[k] == ("." + AsciiLower(ext))[k] {
      if k > 0 { assert ("." + ext)[k] == ext[k - 1]; }
    }
  }

  /** A leading dot shields nothing from `trimEnd`: the trailing white space after it goes, the dot stays. */
  lemma {:induction false} TrimEndAfterDot(s: string)
    decreases |s|
    ensures TrimEnd("." + s) == "." + TrimEnd(s)
  {
    if s != [] && IsJsSpace(s[|s| - 1]) {
      assert ("." + s)[..|"." + s| - 1] == "." + s[..|s| - 1];
      TrimEndAfterDot(s[..|s| - 1]);
    } else {
      assert ("." + s)[|"." + s| - 1] == if s == [] then '.' else s[|s| - 1];
    }
  }

  lemma SplitAfterLeadingDot(s: string)
    requires '.' !in s
    ensures Split("." + s, '.') == ["", s]
  {
    assert OccursAt("." + s, ".", 0);
    assert ("." + s)[1..] == s;
  }

  /** `.ext` is looked up under `ext` lower-cased, without its trailing white space. */
  lemma LookupKeyOfExtension(ext: string)
    requires '.' !in ext
    ensures LookupKey("." + ext) == TrimEnd(AsciiLower(ext))
  {
    var le := AsciiLower(ext);
    LowerCaseAfterDot(ext);
    NoDotAfterLowering(ext);
    TrimAfterDot(le);
    NoDotAfterTrimEnd(le);
    SplitAfterLeadingDot(TrimEnd(le));
  }

  lemma NoDotAfterLowering(s: string)
    requires '.' !in s
    ensures '.' !in AsciiLower(s)
  {
    var le := AsciiLower(s);
    forall k | 0 <= k < |le| ensures le[k] != '.' { assert s[k] in s; }
  }

  lemma NoDotAfterTrimEnd(s: string)
    requires '.' !in s
    ensures '.' !in TrimEnd(s)
  {
    var t := TrimEnd(s);
    forall k | 0 <= k < |t| ensures t[k] != '.' { assert t[k] == s[k] && s[k] in s; }
  }

  lemma TrimAfterDot(s: string)
    ensures Trim("." + s) == "." + TrimEnd(s)
  {
    assert TrimStart("." + s) == "." + s;
    TrimEndAfterDot(s);
  }

  /** White space after an extension does not change the key: `a.js ` is looked up under `js`, as `a.js` is. */
  lemma LookupKeyIgnoresTrailingSpace(ext: string, c: char)
    requires '.' !in ext && IsJsSpace(c)
    ensures LookupKey("." + (ext + [c])) == LookupKey("." + ext)
  {
    assert c != '.' && LowerChar(c) == c;
    LookupKeyOfExtension(ext);
    LookupKeyOfExtension(ext + [c]);
    LowerCaseAppend(ext, c);
    TrimEndDropsSpace(AsciiLower(ext), c);
  }

  lemma LowerCaseAppend(s: string, c: char)
    ensures AsciiLower(s + [c]) == AsciiLower(s) + [LowerChar(c)]
  {
    var lowered := AsciiLower(s + [c]);
    forall k | 0 <= k < |lowered| ensures lowered[k] == (AsciiLower(s) + [LowerChar(c)])[k] {
      if k < |s| { assert (s + [c])[k] == s[k]; } else { assert (s + [c])[k] == c; }
    }
  }

  lemma TrimEndDropsSpace(s: string, c: char)
    requires IsJsSpace(c)
    ensures TrimEnd(s + [c]) == TrimEnd(s)
  {
    var t := s + [c];
    assert t != [] && t[|t| - 1] == c;
    assert t[..|t| - 1] == s;
  }

  /** Lower-casing keeps every `/` and `.` where it is and creates none. */
  predicate SameShape(f: string, g: string) {
    |f| == |g| && forall k | 0 <= k < |f| :: (f[k] == '/' <==> g[k] == '/') && (f[k] == '.' <==> g[k] == '.')
  }

  lemma {:induction false} BaseEndSameShape(f: string, g: string, e: nat)
    requires SameShape(f, g) && e <= |f|
    ensures BaseEnd(f, e) == BaseEnd(g, e)
    decreases e
  {
    if e > 0 {
      BaseEndSameShape(f, g, e - 1);
    }
  }

  lemma {:induction false} LastIndexSameShape(f: string, g: string, c: char, lo: nat, hi: nat)
    requires SameShape(f, g) && lo <= hi <= |f| && (c == '/' || c == '.')
    ensures LastIndexIn(f, c, lo, hi) == LastIndexIn(g, c, lo, hi)
    decreases hi - lo
  {
    if lo < hi {
      LastIndexSameShape(f, g, c, lo, hi - 1);
    }
  }

  /** Files of the same shape have their extensions at the same place. */
  lemma ExtBoundsSameShape(f: string, g: string)
    requires SameShape(f, g)
    ensures ExtBounds(f) == ExtBounds(g)
  {
    BaseEndSameShape(f, g, |f|);
    var e := BaseEnd(f, |f|);
    LastIndexSameShape(f, g, '/', 0, e);
    var s := BaseStart(f);
    assert s == BaseStart(g);
    LastIndexSameShape(f, g, '.', s, e);
  }

  lemma LowerCaseSameShape(f: string, g: string)
    requires AsciiLower(f) == AsciiLower(g)
    ensures SameShape(f, g)
  {
    forall k | 0 <= k < |f| ensures (f[k] == '/' <==> g[k] == '/') && (f[k] == '.' <==> g[k] == '.') {
      assert LowerChar(f[k]) == LowerChar(g[k]);
    }
  }

  lemma LowerCaseSlice(f: string, g: string, i: nat, j: nat)
    requires AsciiLower(f) == AsciiLower(g) && i <= j <= |f|
    ensures AsciiLower(f[i..j]) == AsciiLower(g[i..j])
  {
    var a, b := f[i..j], g[i..j];
    forall k | 0 <= k < |a| ensures LowerChar(a[k]) == LowerChar(b[k]) {
      assert a[k] == f[i + k] && b[k] == g[i + k];
      assert AsciiLower(f)[i + k] == AsciiLower(g)[i + k];
    }
  }

  /** The lookup ignores the case of the file name. */
  lemma MimeTypeIgnoresCase(table: map<string, string>, f: string, g: string)
    requires AsciiLower(f) == AsciiLower(g)
    ensures MimeType(table, f) == MimeType(table, g)
  {
    LowerCaseSameShape(f, g);
    ExtBoundsSameShape(f, g);
    var b := ExtBounds(f);
    LowerCaseSlice(f, g, b.0, b.1);
    assert LookupKey(ExtName(f)) == LookupKey(ExtName(g));
  }
}
