/**
 * The small part of JavaScript's String behaviour the rest of the model relies
 * on: search (`indexOf`, `includes`, `startsWith`, `endsWith`), `replace` with a
 * string pattern, `split` on one character, `trim`, ASCII `toLowerCase`, and the
 * decimal rendering of integers.  A string is a sequence of Dafny `char`s,
 * which are Unicode scalar values rather than JavaScript's UTF-16 code units;
 * no operation modelled here depends on that difference.
 */
module JsStrings {

  datatype Option<T> = None | Some(value: T)

  /** `p` occurs in `s` starting at offset `i`. */
  predicate OccursAt(s: string, p: string, i: nat) {
    i + |p| <= |s| && s[i..i + |p|] == p
  }

  lemma ConcatAssoc<T>(a: seq<T>, b: seq<T>, c: seq<T>)
    ensures a + (b + c) == (a + b) + c
  {
  }

  /** `s.startsWith(p)` */
  predicate StartsWith(s: string, p: string) {
    OccursAt(s, p, 0)
  }

  /** `s.endsWith(p)` */
  predicate EndsWith(s: string, p: string) {
    |p| <= |s| && s[|s| - |p|..] == p
  }

  /** `s.indexOf(p, from)`: the first occurrence of `p` at or after `from`. */
  function IndexOfFrom(s: string, p: string, from: nat): (r: Option<nat>)
    decreases |s| - from
    ensures r.Some? ==> from <= r.value && OccursAt(s, p, r.value)
    ensures r.Some? ==> forall j :: from <= j < r.value ==> !OccursAt(s, p, j)
    ensures r.None? ==> forall j :: from <= j ==> !OccursAt(s, p, j)
  {
    if from + |p| > |s| then None
    else if s[from..from + |p|] == p then Some(from)
    else IndexOfFrom(s, p, from + 1)
  }

  /** `s.indexOf(p)` */
  function IndexOf(s: string, p: string): Option<nat> {
    IndexOfFrom(s, p, 0)
  }

  /** `s.includes(p)` */
  predicate Includes(s: string, p: string) {
    IndexOf(s, p).Some?
  }

  lemma IncludesIff(s: string, p: string)
    ensures Includes(s, p) <==> exists i: nat :: OccursAt(s, p, i)
  {
    if Includes(s, p) {
      assert OccursAt(s, p, IndexOf(s, p).value);
    }
  }

  /**
   * `s.replace(p, r)` for a string `p` with a replacement that JavaScript would
   * take literally: the first occurrence of `p` is replaced by `r`.
   */
  function ReplaceFirstLiteral(s: string, p: string, r: string): string {
    match IndexOf(s, p)
    case None => s
    case Some(i) => s[..i] + r + s[i + |p|..]
  }

  /**
   * GetSubstitution of the ECMAScript standard (section 22.1.3.19.1 of
   * ECMA-262) for a string pattern, which captures no groups: `$$` is one `$`,
   * `$&` the matched text, `` $` `` the text before the match, `$'` the text
   * after it; every other `$` stands for itself.
   */
  function Substitute(replacement: string, matched: string, before: string, after: string): string
    decreases |replacement|
  {
    if |replacement| == 0 then ""
    else if replacement[0] == '$' && |replacement| >= 2 && replacement[1] == '$' then
      "$" + Substitute(replacement[2..], matched, before, after)
    else if replacement[0] == '$' && |replacement| >= 2 && replacement[1] == '&' then
      matched + Substitute(replacement[2..], matched, before, after)
    else if replacement[0] == '$' && |replacement| >= 2 && replacement[1] == '`' then
      before + Substitute(replacement[2..], matched, before, after)
    else if replacement[0] == '$' && |replacement| >= 2 && replacement[1] == '\'' then
      after + Substitute(replacement[2..], matched, before, after)
    else
      [replacement[0]] + Substitute(replacement[1..], matched, before, after)
  }

  lemma {:induction false} SubstituteWithoutDollar(replacement: string, matched: string, before: string, after: string)
    requires '$' !in replacement
    ensures Substitute(replacement, matched, before, after) == replacement
    decreases |replacement|
  {
    if |replacement| > 0 {
      assert replacement[0] != '$';
      assert '$' !in replacement[1..] by {
        forall k | 0 <= k < |replacement[1..]| ensures replacement[1..][k] != '$' {
          assert replacement[1..][k] == replacement[k + 1];
        }
      }
      SubstituteWithoutDollar(replacement[1..], matched, before, after);
      assert replacement == [replacement[0]] + replacement[1..];
    }
  }

  /** `s.replace(p, r)` for a string `p`, as JavaScript evaluates it: `r` goes through GetSubstitution. */
  function ReplaceFirst(s: string, p: string, r: string): string {
    match IndexOf(s, p)
    case None => s
    case Some(i) => s[..i] + Substitute(r, p, s[..i], s[i + |p|..]) + s[i + |p|..]
  }

  lemma ReplaceFirstWithoutDollar(s: string, p: string, r: string)
    ensures '$' !in r ==> ReplaceFirst(s, p, r) == ReplaceFirstLiteral(s, p, r)
  {
    if '$' !in r {
      match IndexOf(s, p)
      case None =>
      case Some(i) => SubstituteWithoutDollar(r, p, s[..i], s[i + |p|..]);
    }
  }

  /** `s.split(c)` for a one-character separator. */
  function Split(s: string, c: char): (parts: seq<string>)
    decreases |s|
    ensures |parts| >= 1
    ensures c !in s ==> parts == [s]
    ensures forall k | 0 <= k < |parts| :: c !in parts[k]
  {
    match IndexOf(s, [c])
    case None =>
      assert c !in s by {
        forall k | 0 <= k < |s| ensures s[k] != c {
          assert !OccursAt(s, [c], k);
        }
      }
      [s]
    case Some(i) =>
      assert s[i..i + 1] == [c];
      assert s[i] == s[i..i + 1][0] == c;
      assert c !in s[..i] by {
        forall k | 0 <= k < i ensures s[..i][k] != c {
          assert !OccursAt(s, [c], k);
        }
      }
      var tail := Split(s[i + 1..], c);
      assert forall k | 1 <= k < |tail| + 1 :: ([s[..i]] + tail)[k] == tail[k - 1];
      [s[..i]] + tail
  }

  lemma SplitHead(s: string, c: char, i: nat)
    requires i < |s| && s[i] == c && c !in s[..i]
    ensures |Split(s, c)| >= 2
    ensures Split(s, c)[0] == s[..i]
    ensures Split(s, c)[1] == Split(s[i + 1..], c)[0]
  {
    assert OccursAt(s, [c], i);
    forall j | 0 <= j < i ensures !OccursAt(s, [c], j) {
      assert s[..i][j] == s[j];
    }
    assert IndexOf(s, [c]) == Some(i);
  }

  /** Splitting at the first separator, at `i`. */
  lemma SplitAt(s: string, c: char, i: nat)
    requires i < |s| && s[i] == c && c !in s[..i]
    ensures Split(s, c) == [s[..i]] + Split(s[i + 1..], c)
  {
    SplitHead(s, c, i);
  }

  /** The first part of a split is the text up to the first separator, or all of it. */
  lemma SplitFirstPart(s: string, c: char)
    ensures var first := Split(s, c)[0];
      first == s[..|first|] && c !in first && (|first| == |s| || s[|first|] == c)
  {
    match IndexOf(s, [c])
    case None =>
    case Some(i) =>
      assert s[i..i + 1] == [c];
      assert s[i] == s[i..i + 1][0];
  }

  /** JavaScript's WhiteSpace and LineTerminator code points, which `trim` removes. */
  predicate IsJsSpace(c: char) {
    c == '\t' || c == '\n' || c == '\U{000B}' || c == '\U{000C}' || c == '\r' || c == ' '
    || c == '\U{00A0}' || c == '\U{1680}' || ('\U{2000}' <= c <= '\U{200A}')
    || c == '\U{2028}' || c == '\U{2029}' || c == '\U{202F}' || c == '\U{205F}'
    || c == '\U{3000}' || c == '\U{FEFF}'
  }

  /** The code points a regular expression's `.` does not match. */
  predicate IsLineTerminator(c: char) {
    c == '\n' || c == '\r' || c == '\U{2028}' || c == '\U{2029}'
  }

  function TrimStart(s: string): (r: string)
    decreases |s|
    ensures |r| <= |s| && r == s[|s| - |r|..]
    ensures r != [] ==> !IsJsSpace(r[0])
  {
    if s != [] && IsJsSpace(s[0]) then TrimStart(s[1..]) else s
  }

  function TrimEnd(s: string): (r: string)
    decreases |s|
    ensures |r| <= |s| && r == s[..|r|]
    ensures r != [] ==> !IsJsSpace(r[|r| - 1])
  {
    if s != [] && IsJsSpace(s[|s| - 1]) then TrimEnd(s[..|s| - 1]) else s
  }

  /** `s.trim()` */
  function Trim(s: string): string {
    TrimEnd(TrimStart(s))
  }

  function LowerChar(c: char): char {
    if 'A' <= c <= 'Z' then (c as int + 32) as char else c
  }

  /** `s.toLowerCase()` restricted to ASCII letters. */
  function AsciiLower(s: string): (r: string)
    ensures |r| == |s|
    ensures forall k | 0 <= k < |s| :: r[k] == LowerChar(s[k])
  {
    seq(|s|, k requires 0 <= k < |s| => LowerChar(s[k]))
  }

  predicate IsDigit(c: char) {
    '0' <= c <= '9'
  }

  /** The decimal digits of `n`, most significant first, as `Number.prototype.toString` gives them. */
  function NatToString(n: nat): (r: string)
    ensures |r| >= 1
    ensures forall k | 0 <= k < |r| :: IsDigit(r[k])
  {
    var d := ['0' + (n % 10) as char];
    if n < 10 then d else NatToString(n / 10) + d
  }

  function IntToString(n: int): string {
    if n < 0 then "-" + NatToString(-n) else NatToString(n)
  }
}
