/**
 * The JavaScript string built-ins the catalogue parser relies on, over `string` (a sequence of
 * Unicode scalar values): `String.prototype.trim`, `split` with a one-character separator or
 * with the quote-aware comma pattern, `toUpperCase`, and the leading/trailing quote removal
 * `replace(/^"|"$/g, '')`.
 */
module JsText {

  /** ECMAScript WhiteSpace and LineTerminator code points: what `trim` removes. */
  predicate IsWhitespace(c: char) {
    || c == '\t' || c == '\n' || c == '\U{B}' || c == '\U{C}' || c == '\r' || c == ' '
    || c == '\U{A0}' || c == '\U{1680}' || ('\U{2000}' <= c <= '\U{200A}')
    || c == '\U{2028}' || c == '\U{2029}' || c == '\U{202F}' || c == '\U{205F}'
    || c == '\U{3000}' || c == '\U{FEFF}'
  }

  ghost predicate AllWhitespace(s: string) {
    forall i :: 0 <= i < |s| ==> IsWhitespace(s[i])
  }

  /** Every character of `s` from index `lo` up to (not including) `hi` is whitespace. */
  ghost predicate SpacesBetween(s: string, lo: int, hi: int) {
    forall i :: lo <= i < hi && 0 <= i < |s| ==> IsWhitespace(s[i])
  }

  /** How many whitespace characters `s` starts with. */
  function Leading(s: string): (k: nat)
    ensures k <= |s| && SpacesBetween(s, 0, k)
    ensures k < |s| ==> !IsWhitespace(s[k])
  {
    if |s| > 0 && IsWhitespace(s[0]) then
      var k := Leading(s[1..]);
      assert forall i :: 1 <= i < k + 1 ==> s[i] == s[1..][i - 1];
      k + 1
    else 0
  }

  /** How many whitespace characters `s` ends with. */
  function Trailing(s: string): (k: nat)
    ensures k <= |s| && SpacesBetween(s, |s| - k, |s|)
    ensures k < |s| ==> !IsWhitespace(s[|s| - k - 1])
  {
    if |s| > 0 && IsWhitespace(s[|s| - 1]) then Trailing(s[..|s| - 1]) + 1 else 0
  }

  /** `trimStart`: the longest suffix of `s` that does not start with whitespace. */
  function TrimStart(s: string): (r: string)
    ensures |r| <= |s| && r == s[|s| - |r|..]
    ensures SpacesBetween(s, 0, |s| - |r|)
    ensures |r| > 0 ==> !IsWhitespace(r[0])
  {
    s[Leading(s)..]
  }

  /** `trimEnd`: the longest prefix of `s` that does not end with whitespace. */
  function TrimEnd(s: string): (r: string)
    ensures |r| <= |s| && r == s[..|r|]
    ensures SpacesBetween(s, |r|, |s|)
    ensures |r| > 0 ==> !IsWhitespace(r[|r| - 1])
  {
    s[..|s| - Trailing(s)]
  }

  /** Whitespace in front of `s` adds to its leading whitespace and to nothing else. */
  lemma {:induction false} LeadingAfterSpaces(ws: string, s: string)
    requires AllWhitespace(ws)
    ensures Leading(ws + s) == |ws| + Leading(s)
    decreases |ws|
  {
    if |ws| > 0 {
      assert (ws + s)[0] == ws[0];
      assert (ws + s)[1..] == ws[1..] + s;
      LeadingAfterSpaces(ws[1..], s);
    } else {
      assert ws + s == s;
    }
  }

  /** `trim`: `s` without its leading and trailing whitespace. */
  function Trim(s: string): (r: string)
    ensures var k := |s| - |TrimStart(s)|;
      && k + |r| <= |s|
      && r == s[k..k + |r|]
      && SpacesBetween(s, 0, k)
      && SpacesBetween(s, k + |r|, |s|)
    ensures |r| > 0 ==> !IsWhitespace(r[0]) && !IsWhitespace(r[|r| - 1])
  {
    var k := Leading(s);
    var m := Trailing(s[k..]);
    SpacesShift(s, k, |s| - k - m, |s| - k);
    assert m < |s| - k ==> s[k..][|s| - k - m - 1] == s[|s| - m - 1];
    s[k..|s| - m]
  }

  /** Whitespace in a suffix of `s` is whitespace of `s`, further along. */
  lemma SpacesShift(s: string, k: nat, lo: int, hi: int)
    requires k <= |s| && 0 <= lo && SpacesBetween(s[k..], lo, hi)
    ensures SpacesBetween(s, lo + k, hi + k)
  {
    forall i | lo + k <= i < hi + k && 0 <= i < |s| && k <= i
      ensures IsWhitespace(s[i])
    {
      assert s[i] == s[k..][i - k];
    }
  }

  /** A string trims to nothing exactly when it is all whitespace. */
  lemma TrimEmptyIff(s: string)
    ensures |Trim(s)| == 0 <==> AllWhitespace(s)
  {
    var k := |s| - |TrimStart(s)|;
    if |Trim(s)| == 0 {
      assert k == |s|;
      forall i | 0 <= i < |s| ensures IsWhitespace(s[i]) {
        assert s[..k][i] == s[i];
      }
    }
  }

  /** Trimming twice is trimming once. */
  lemma TrimIdempotent(s: string)
    ensures Trim(Trim(s)) == Trim(s)
  {
    var r := Trim(s);
    if |r| > 0 {
      assert TrimStart(r) == r;
      assert TrimEnd(r) == r;
    }
  }

  /** The number of `"` characters in `s` from index `i` to the end. */
  function QuotesFrom(s: string, i: nat): nat
    decreases |s| - i
  {
    if i >= |s| then 0 else (if s[i] == '"' then 1 else 0) + QuotesFrom(s, i + 1)
  }

  /** Counting quotes in a suffix is counting them in `s`, further along. */
  lemma {:induction false} QuotesShift(s: string, d: nat, p: nat)
    requires d <= |s|
    ensures QuotesFrom(s[d..], p) == QuotesFrom(s, d + p)
    decreases |s| - d - p
  {
    if d + p < |s| {
      assert s[d..][p] == s[d + p];
      QuotesShift(s, d, p + 1);
    }
  }

  /**
   * Where `split` cuts a string: at every occurrence of one character, or (the catalogue's
   * pattern `/,(?=(?:(?:[^"]*"){2})*[^"]*$)/`) at every comma that is followed by an even
   * number of `"` characters up to the end of the string, that is a comma outside quotes.
   */
  datatype Separator = Char(c: char) | UnquotedComma {

    /** The character consumed at each cut. */
    function Consumed(): char {
      match this
      case Char(c) => c
      case UnquotedComma => ','
    }
  }

  /** Whether `split` cuts `s` at index `i`. */
  predicate IsSepIn(sep: Separator, s: string, i: int) {
    && 0 <= i < |s|
    && match sep
       case Char(c) => s[i] == c
       case UnquotedComma => s[i] == ',' && QuotesFrom(s, i + 1) % 2 == 0
  }

  /** The first cut at or after `from`, or `|s|` when there is none. */
  function FirstSep(sep: Separator, s: string, from: nat): (i: nat)
    requires from <= |s|
    ensures from <= i <= |s|
    ensures i < |s| ==> IsSepIn(sep, s, i)
    ensures forall j :: from <= j < i ==> !IsSepIn(sep, s, j)
    decreases |s| - from
  {
    if from == |s| then from
    else if IsSepIn(sep, s, from) then from
    else FirstSep(sep, s, from + 1)
  }

  /** The pieces glued back together with the separator character. */
  function Join(ps: seq<string>, c: char): string {
    if |ps| == 0 then ""
    else if |ps| == 1 then ps[0]
    else ps[0] + [c] + Join(ps[1..], c)
  }

  /** `s.split(sep)`: the text between consecutive cuts; never empty (`"".split(",")` is `[""]`). */
  function Split(s: string, sep: Separator): (r: seq<string>)
    ensures |r| >= 1
    ensures Join(r, sep.Consumed()) == s
    decreases |s|
  {
    var i := FirstSep(sep, s, 0);
    if i == |s| then [s]
    else
      var rest := Split(s[i + 1..], sep);
      assert s == s[..i] + [sep.Consumed()] + s[i + 1..];
      [s[..i]] + rest
  }

  /** Where piece `k` of `ps` begins inside `Join(ps, c)`. */
  function Start(ps: seq<string>, k: nat): nat
    requires k <= |ps|
  {
    if k == 0 then 0 else |ps[0]| + 1 + Start(ps[1..], k - 1)
  }

  /** Cuts depend only on the suffix, so dropping a prefix shifts them. */
  lemma SepShift(sep: Separator, s: string, d: nat, p: nat)
    requires d <= |s|
    ensures IsSepIn(sep, s[d..], p) <==> IsSepIn(sep, s, d + p)
  {
    if 0 <= p < |s| - d {
      assert s[d..][p] == s[d + p];
      QuotesShift(s, d, p + 1);
    }
  }

  /** Start positions of `[h] + ps` are those of `ps` shifted past `h` and one separator. */
  lemma StartCons(h: string, ps: seq<string>, k: nat)
    requires 1 <= k <= |ps| + 1
    ensures Start([h] + ps, k) == |h| + 1 + Start(ps, k - 1)
  {
    assert ([h] + ps)[1..] == ps;
  }

  lemma SliceOfSuffix(s: string, d: nat, a: nat, len: nat)
    requires d + a + len <= |s|
    ensures s[d..][a..a + len] == s[d + a..d + a + len]
  {
  }

  /** Every piece of `ps` sits at its place in `s`. */
  ghost predicate PiecesInPlace(s: string, ps: seq<string>) {
    forall k :: 0 <= k < |ps| ==> Start(ps, k) + |ps[k]| <= |s| && s[Start(ps, k)..Start(ps, k) + |ps[k]|] == ps[k]
  }

  /** The character after each piece of `ps` but the last is a cut of `s`. */
  ghost predicate CutsBetween(sep: Separator, s: string, ps: seq<string>) {
    forall k :: 0 <= k < |ps| - 1 ==> IsSepIn(sep, s, Start(ps, k) + |ps[k]|)
  }

  /** No cut of `s` falls inside a piece of `ps`. */
  ghost predicate NoCutInside(sep: Separator, s: string, ps: seq<string>) {
    forall k, p :: 0 <= k < |ps| && Start(ps, k) <= p < Start(ps, k) + |ps[k]| ==> !IsSepIn(sep, s, p)
  }

  lemma StartsAfterCut(s: string, i: nat, ps: seq<string>)
    requires i < |s|
    ensures forall k :: 1 <= k < |ps| + 1 ==>
      Start([s[..i]] + ps, k) == i + 1 + Start(ps, k - 1) && ([s[..i]] + ps)[k] == ps[k - 1]
  {
    forall k | 1 <= k < |ps| + 1
      ensures Start([s[..i]] + ps, k) == i + 1 + Start(ps, k - 1)
    {
      StartCons(s[..i], ps, k);
    }
  }

  /** Pieces stay in place when the first piece and its cut are put back in front. */
  lemma InPlaceStep(s: string, i: nat, ps: seq<string>)
    requires i < |s|
    requires PiecesInPlace(s[i + 1..], ps)
    ensures PiecesInPlace(s, [s[..i]] + ps)
  {
    var t := s[i + 1..];
    var r := [s[..i]] + ps;
    StartsAfterCut(s, i, ps);
    forall k | 0 <= k < |r|
      ensures Start(r, k) + |r[k]| <= |s| && s[Start(r, k)..Start(r, k) + |r[k]|] == r[k]
    {
      if k > 0 {
        var a, len := Start(ps, k - 1), |ps[k - 1]|;
        assert a + len <= |t| && t[a..a + len] == ps[k - 1];
        SliceOfSuffix(s, i + 1, a, len);
      }
    }
  }

  /** The cut after piece `k - 1` of `ps` is the cut after piece `k` once `s[..i]` is put in front. */
  lemma CutAfterPiece(sep: Separator, s: string, i: nat, ps: seq<string>, k: nat)
    requires i < |s| && 1 <= k < |ps|
    requires IsSepIn(sep, s[i + 1..], Start(ps, k - 1) + |ps[k - 1]|)
    ensures IsSepIn(sep, s, Start([s[..i]] + ps, k) + |([s[..i]] + ps)[k]|)
  {
    SepShift(sep, s, i + 1, Start(ps, k - 1) + |ps[k - 1]|);
    StartCons(s[..i], ps, k);
    assert ([s[..i]] + ps)[k] == ps[k - 1];
  }

  /** The cut at `i` follows the first piece `s[..i]`. */
  lemma CutAfterFirst(sep: Separator, s: string, i: nat, ps: seq<string>)
    requires i < |s| && IsSepIn(sep, s, i)
    ensures IsSepIn(sep, s, Start([s[..i]] + ps, 0) + |([s[..i]] + ps)[0]|)
  {
  }

  /** Cuts between pieces stay cuts when the first piece and its cut are put back. */
  lemma CutsStep(sep: Separator, s: string, i: nat, ps: seq<string>)
    requires i < |s| && IsSepIn(sep, s, i)
    requires CutsBetween(sep, s[i + 1..], ps)
    ensures CutsBetween(sep, s, [s[..i]] + ps)
  {
    var r := [s[..i]] + ps;
    forall k | 0 <= k < |r| - 1
      ensures IsSepIn(sep, s, Start(r, k) + |r[k]|)
    {
      if k > 0 {
        var q := Start(ps, k - 1) + |ps[k - 1]|;
        assert IsSepIn(sep, s[i + 1..], q);
        CutAfterPiece(sep, s, i, ps, k);
      } else {
        CutAfterFirst(sep, s, i, ps);
      }
    }
  }

  /** No cut inside a piece, when the first piece is cut-free and put back. */
  lemma NoCutStep(sep: Separator, s: string, i: nat, ps: seq<string>)
    requires i < |s|
    requires forall j :: 0 <= j < i ==> !IsSepIn(sep, s, j)
    requires NoCutInside(sep, s[i + 1..], ps)
    ensures NoCutInside(sep, s, [s[..i]] + ps)
  {
    var r := [s[..i]] + ps;
    StartsAfterCut(s, i, ps);
    forall k, p | 0 <= k < |r| && Start(r, k) <= p < Start(r, k) + |r[k]|
      ensures !IsSepIn(sep, s, p)
    {
      if k > 0 {
        SepShift(sep, s, i + 1, p - (i + 1));
      }
    }
  }

  /**
   * `Split` cuts exactly at the separator positions: every piece sits at its place in `s`,
   * the character after each piece but the last is a cut, and no cut falls inside a piece.
   */
  lemma {:induction false} SplitExact(s: string, sep: Separator)
    ensures PiecesInPlace(s, Split(s, sep))
    ensures CutsBetween(sep, s, Split(s, sep))
    ensures NoCutInside(sep, s, Split(s, sep))
    decreases |s|
  {
    var i := FirstSep(sep, s, 0);
    if i < |s| {
      var ps := Split(s[i + 1..], sep);
      SplitExact(s[i + 1..], sep);
      InPlaceStep(s, i, ps);
      CutsStep(sep, s, i, ps);
      NoCutStep(sep, s, i, ps);
    } else {
      var r := Split(s, sep);
      assert r == [s];
      assert s[0..|s|] == s;
    }
  }

  /** Joining pieces that do not contain `c` and splitting at `c` gives the pieces back. */
  lemma {:induction false} SplitJoin(ps: seq<string>, c: char)
    requires |ps| >= 1
    requires forall k, j :: 0 <= k < |ps| && 0 <= j < |ps[k]| ==> ps[k][j] != c
    ensures Split(Join(ps, c), Char(c)) == ps
  {
    var s := Join(ps, c);
    var i := FirstSep(Char(c), s, 0);
    if |ps| > 1 {
      var tail := Join(ps[1..], c);
      assert s == ps[0] + [c] + tail;
      var n := |ps[0]|;
      assert IsSepIn(Char(c), s, n);
      assert i == n;
      assert s[..n] == ps[0];
      assert s[n + 1..] == tail;
      SplitJoin(ps[1..], c);
      assert ps == [ps[0]] + ps[1..];
    }
  }

  /** `toUpperCase` on one character, for ASCII and the Latin-1 letters that map one-to-one. */
  function UpperChar(c: char): char {
    if HasLatinCapital(c) then (c as int - 32) as char else c
  }

  /** `toUpperCase` on a string, character by character. */
  function ToUpper(s: string): string {
    seq(|s|, i requires 0 <= i < |s| => UpperChar(s[i]))
  }

  /** A lower-case letter of Latin-1 that has a one-to-one Latin-1 capital. */
  predicate HasLatinCapital(c: char) {
    ('a' <= c <= 'z') || ('\U{E0}' <= c <= '\U{FE}' && c != '\U{F7}')
  }

  /**
   * Upper-casing keeps the length, turns each lower-case letter with a Latin-1 capital into that
   * capital (32 code points down), keeps every other character, is idempotent and leaves no
   * lower-case ASCII letter behind.
   */
  lemma ToUpperNormalises(s: string)
    ensures |ToUpper(s)| == |s|
    ensures forall i :: 0 <= i < |s| && HasLatinCapital(s[i]) ==> ToUpper(s)[i] as int == s[i] as int - 32
    ensures forall i :: 0 <= i < |s| && !HasLatinCapital(s[i]) ==> ToUpper(s)[i] == s[i]
    ensures ToUpper(ToUpper(s)) == ToUpper(s)
    ensures forall i :: 0 <= i < |s| ==> !('a' <= ToUpper(s)[i] <= 'z')
  {
  }

  /** The header cells the loader looks up are matched whatever their case. */
  lemma ToUpperOfHeader()
    ensures ToUpper("Linea") == "LINEA" && ToUpper("archivo_glb") == "ARCHIVO_GLB"
  {
  }

  /** `replace(/^"|"$/g, '')`: removes one leading and one trailing `"`, if present. */
  function StripQuotes(v: string): string {
    var a := if |v| > 0 && v[0] == '"' then v[1..] else v;
    if |a| > 0 && a[|a| - 1] == '"' then a[..|a| - 1] else a
  }

  /** Stripping undoes quoting, whatever the quoted text contains. */
  lemma StripQuotesOfQuoted(t: string)
    ensures StripQuotes(['"'] + t + ['"']) == t
  {
    var v := ['"'] + t + ['"'];
    assert v[1..] == t + ['"'];
    assert (t + ['"'])[..|t|] == t;
  }

  /** Text that neither starts nor ends with `"` is left alone. */
  lemma StripQuotesUnquoted(t: string)
    requires |t| > 0 ==> t[0] != '"' && t[|t| - 1] != '"'
    ensures StripQuotes(t) == t
  {
  }

  /** A comma between quotes does not cut: `"a,b",c` reads as two fields. */
  lemma QuotedCommaKept()
    ensures Split("\"a,b\",c", UnquotedComma) == ["\"a,b\"", "c"]
  {
    var s := "\"a,b\",c";
    assert s[6..] == "c";
    assert QuotesFrom(s, 6) == 0 && QuotesFrom(s, 5) == 0 && QuotesFrom(s, 4) == 1;
    assert QuotesFrom(s, 3) == 1;
    assert !IsSepIn(UnquotedComma, s, 2);
    assert IsSepIn(UnquotedComma, s, 5);
    assert FirstSep(UnquotedComma, s, 0) == 5;
    assert FirstSep(UnquotedComma, "c", 0) == 1;
    assert Split("c", UnquotedComma) == ["c"];
    assert s[..5] == "\"a,b\"";
    assert Split(s, UnquotedComma) == [s[..5]] + Split(s[6..], UnquotedComma);
  }
}
