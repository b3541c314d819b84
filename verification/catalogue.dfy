/**
 * The catalogue loader `parseCSVtoTree` (main.js): CSV text becomes a two-level tree,
 * product line -> category -> products in row order.
 */
module Catalogue {
  import opened Results
  import opened JsText
  import opened JsNumber

  /** The product record the loader builds from one row; absent columns are `None` (undefined). */
  datatype Product = Product(
    name: Option<string>,
    file: Option<string>,
    price: real,
    ref: string,
    desc: string,
    dims: string,
    urlTech: string,
    urlCert: string,
    urlInst: string,
    img2d: string)

  /** One data row: the product and where it is filed. */
  datatype Entry = Entry(line: string, category: string, product: Product)

  /** Product line -> category -> products. */
  type Tree = map<string, map<string, seq<Product>>>

  /** Reading `rows[0]` when every line is blank throws; the loader's caller logs it. */
  datatype ParseError = NoHeaderRow

  const DefaultLine: string := "Sin Línea"
  const DefaultCategory: string := "Varios"
  const DefaultUrl: string := "#"

  /** The trimmed lines that are not empty, in order. */
  function Rows(lines: seq<string>): (r: seq<string>)
    ensures |r| <= |lines|
    ensures forall i :: 0 <= i < |r| ==> |r[i]| > 0 && !IsWhitespace(r[i][0]) && !IsWhitespace(r[i][|r[i]| - 1])
    ensures |r| == 0 <==> forall i :: 0 <= i < |lines| ==> AllWhitespace(lines[i])
  {
    if |lines| == 0 then []
    else
      var t := Trim(lines[0]);
      TrimEmptyIff(lines[0]);
      var rest := Rows(lines[1..]);
      assert forall i :: 1 <= i < |lines| ==> lines[i] == lines[1..][i - 1];
      if |t| > 0 then [t] + rest else rest
  }

  /** Element `k` of `r` is element `idx[k]` of `all`. */
  ghost predicate Picks<T>(all: seq<T>, r: seq<T>, idx: seq<nat>) {
    |idx| == |r| && forall k :: 0 <= k < |idx| ==> idx[k] < |all| && r[k] == all[idx[k]]
  }

  ghost predicate Increasing(idx: seq<nat>) {
    forall k, m :: 0 <= k < m < |idx| ==> idx[k] < idx[m]
  }

  /** Every line holding a visible character is listed in `idx`. */
  ghost predicate CoversNonBlank(lines: seq<string>, idx: seq<nat>) {
    forall i :: 0 <= i < |lines| && !AllWhitespace(lines[i]) ==> i in idx
  }

  /** `idx` lists, in increasing order, the lines that `r` holds trimmed, and every non-blank line. */
  ghost predicate RowsFrom(lines: seq<string>, r: seq<string>, idx: seq<nat>) {
    && |idx| == |r|
    && (forall k :: 0 <= k < |idx| ==> idx[k] < |lines| && r[k] == Trim(lines[idx[k]]))
    && Increasing(idx)
    && CoversNonBlank(lines, idx)
  }

  /** Every index moved one place down. */
  function Later(idx: seq<nat>): (r: seq<nat>)
    ensures |r| == |idx|
    ensures forall k :: 0 <= k < |idx| ==> r[k] == idx[k] + 1
  {
    seq(|idx|, k requires 0 <= k < |idx| => idx[k] + 1)
  }

  /** Every line, trimmed. */
  function Trimmed(lines: seq<string>): (t: seq<string>)
    ensures |t| == |lines|
  {
    seq(|lines|, i requires 0 <= i < |lines| => Trim(lines[i]))
  }

  /** Keeping or dropping the first element, then picking from the rest, is a picking. */
  lemma ConsPicks<T>(all: seq<T>, rest: seq<T>, tail: seq<nat>, keep: bool)
    requires |all| > 0 && Picks(all[1..], rest, tail)
    ensures Picks(all, (if keep then [all[0]] else []) + rest, (if keep then [0] else []) + Later(tail))
  {
    var head: seq<nat> := if keep then [0] else [];
    var r := (if keep then [all[0]] else []) + rest;
    var idx := head + Later(tail);
    forall k | 0 <= k < |idx|
      ensures idx[k] < |all| && r[k] == all[idx[k]]
    {
      if k >= |head| {
        var j := k - |head|;
        assert r[k] == rest[j] == all[1..][tail[j]];
      }
    }
  }

  /** Line 0 comes before every later line. */
  lemma ConsIncreasing(tail: seq<nat>, keep: bool)
    requires Increasing(tail)
    ensures Increasing((if keep then [0] else []) + Later(tail))
  {
  }

  /** A non-blank first line is kept; a non-blank later line is listed for the lines after it. */
  lemma ConsCoversNonBlank(lines: seq<string>, tail: seq<nat>, keep: bool)
    requires |lines| > 0 && CoversNonBlank(lines[1..], tail)
    requires keep <==> !AllWhitespace(lines[0])
    ensures CoversNonBlank(lines, (if keep then [0] else []) + Later(tail))
  {
    var head: seq<nat> := if keep then [0] else [];
    var later := Later(tail);
    var idx := head + later;
    forall i | 0 <= i < |lines| && !AllWhitespace(lines[i])
      ensures i in idx
    {
      if i == 0 {
        assert idx[0] == 0;
      } else {
        assert lines[1..][i - 1] == lines[i];
        assert i - 1 in tail;
        var k :| 0 <= k < |tail| && tail[k] == i - 1;
        assert later[k] == i;
        assert idx[|head| + k] == later[k];
      }
    }
  }

  /** The line numbers the rows come from, built alongside the rows themselves. */
  lemma {:induction false} RowsIndex(lines: seq<string>) returns (idx: seq<nat>)
    ensures Picks(Trimmed(lines), Rows(lines), idx)
    ensures Increasing(idx) && CoversNonBlank(lines, idx)
  {
    if |lines| == 0 {
      idx := [];
    } else {
      var all := Trimmed(lines);
      TrimEmptyIff(lines[0]);
      var tail := RowsIndex(lines[1..]);
      assert all[1..] == Trimmed(lines[1..]);
      var keep := |all[0]| > 0;
      ConsPicks(all, Rows(lines[1..]), tail, keep);
      ConsIncreasing(tail, keep);
      ConsCoversNonBlank(lines, tail, keep);
      assert Rows(lines) == (if keep then [all[0]] else []) + Rows(lines[1..]);
      idx := (if keep then [0] else []) + Later(tail);
    }
  }

  /**
   * The rows are exactly the non-blank lines, trimmed, in their original order: there is an
   * increasing map from rows to lines that reaches every line holding a visible character.
   */
  lemma RowsAreNonBlankLines(lines: seq<string>)
    ensures exists idx :: RowsFrom(lines, Rows(lines), idx)
  {
    var idx := RowsIndex(lines);
    var all := Trimmed(lines);
    forall k | 0 <= k < |idx|
      ensures idx[k] < |lines| && Rows(lines)[k] == Trim(lines[idx[k]])
    {
      assert all[idx[k]] == Trim(lines[idx[k]]);
    }
    assert RowsFrom(lines, Rows(lines), idx);
  }

  /** The header row's names: split at every comma, trimmed and upper-cased. */
  function Headers(row: string): seq<string> {
    var cells := Split(row, Char(','));
    seq(|cells|, k requires 0 <= k < |cells| => ToUpper(Trim(cells[k])))
  }

  /** The text of column `k`: trimmed, then one leading and one trailing `"` removed; "" when missing. */
  function Field(values: seq<string>, k: nat): string {
    if k < |values| then StripQuotes(Trim(values[k])) else ""
  }

  /** The index of the last occurrence of `h` in `hs`, or -1. */
  function LastIndexOf(hs: seq<string>, h: string): (r: int)
    ensures -1 <= r < |hs|
    ensures r >= 0 ==> hs[r] == h && forall j :: r < j < |hs| ==> hs[j] != h
    ensures r == -1 <==> h !in hs
  {
    if |hs| == 0 then -1
    else if hs[|hs| - 1] == h then |hs| - 1
    else
      var r := LastIndexOf(hs[..|hs| - 1], h);
      assert forall j :: 0 <= j < |hs| - 1 ==> hs[..|hs| - 1][j] == hs[j];
      assert hs == hs[..|hs| - 1] + [hs[|hs| - 1]];
      r
  }

  /** What the row holds under header `h`: the LAST column so named wins; `None` when no column is. */
  function Column(headers: seq<string>, values: seq<string>, h: string): Option<string> {
    var k := LastIndexOf(headers, h);
    if k < 0 then None else Some(Field(values, k))
  }

  /** The `item` object of the loader after the first `n` headers: `item[header] = value` in order. */
  function Item(headers: seq<string>, values: seq<string>, n: nat): map<string, string>
    requires n <= |headers|
  {
    if n == 0 then map[] else Item(headers, values, n - 1)[headers[n - 1] := Field(values, n - 1)]
  }

  /** Appending `x` makes it the last occurrence of itself and changes nothing for other names. */
  lemma LastIndexOfSnoc(hs: seq<string>, x: string)
    ensures forall h :: LastIndexOf(hs + [x], h) == if h == x then |hs| else LastIndexOf(hs, h)
  {
    assert (hs + [x])[..|hs|] == hs;
  }

  /**
   * After the first `n` headers, the row object holds under each header name the field of the
   * last of those columns with that name, and holds nothing under any other name.
   */
  lemma {:induction false} ItemReads(headers: seq<string>, values: seq<string>, n: nat)
    requires n <= |headers|
    ensures forall h :: Get(Item(headers, values, n), h) == Column(headers[..n], values, h)
    decreases n
  {
    if n > 0 {
      ItemReads(headers, values, n - 1);
      var hs, x := headers[..n - 1], headers[n - 1];
      assert headers[..n] == hs + [x];
      ItemStep(hs, x, values, Item(headers, values, n - 1));
    } else {
      assert headers[..0] == [];
    }
  }

  /** Setting the next header's field on a row object that reads the earlier columns right. */
  lemma ItemStep(hs: seq<string>, x: string, values: seq<string>, m: map<string, string>)
    requires forall h :: Get(m, h) == Column(hs, values, h)
    ensures forall h :: Get(m[x := Field(values, |hs|)], h) == Column(hs + [x], values, h)
  {
    LastIndexOfSnoc(hs, x);
    forall h ensures Get(m[x := Field(values, |hs|)], h) == Column(hs + [x], values, h) {
      if h != x {
        assert Get(m[x := Field(values, |hs|)], h) == Get(m, h);
      }
    }
  }

  function Get(item: map<string, string>, h: string): Option<string> {
    if h in item then Some(item[h]) else None
  }

  /** JavaScript's `v || d` on a string that may be undefined: empty and undefined give `d`. */
  function Or(v: Option<string>, d: string): string {
    if v.Some? && v.value != "" then v.value else d
  }

  /** `parseFloat(v) || 0` where `v` may be undefined. */
  function PriceOf(v: Option<string>): real {
    if v.None? then 0.0 else NumberOrZero(ParseFloat(v.value))
  }

  /** One data row, read against the header names. */
  function MakeEntry(headers: seq<string>, row: string): Entry
  {
    var values := Split(row, UnquotedComma);
    var item := Item(headers, values, |headers|);
    var product := Product(
      name := Get(item, "NOMBRE"),
      file := Get(item, "ARCHIVO_GLB"),
      price := PriceOf(Get(item, "PRECIO")),
      ref := Or(Get(item, "REF"), ""),
      desc := Or(Get(item, "DESC"), ""),
      dims := Or(Get(item, "DIMS"), ""),
      urlTech := Or(Get(item, "URL_TECH"), DefaultUrl),
      urlCert := Or(Get(item, "URL_CERT"), DefaultUrl),
      urlInst := Or(Get(item, "URL_INST"), DefaultUrl),
      img2d := Or(Get(item, "IMG_2D"), ""));
    Entry(Or(Get(item, "LINEA"), DefaultLine), Or(Get(item, "CATEGORIA"), DefaultCategory), product)
  }

  /**
   * A row's product and filing: each field is the text of the last column of that name, with the
   * loader's defaults when the column is missing or empty ("Sin Línea", "Varios", "#" for the
   * three links, "" for the other texts, 0 for a price that does not parse).
   */
  lemma MakeEntryReadsColumns(headers: seq<string>, row: string)
    ensures var e := MakeEntry(headers, row);
      var values := Split(row, UnquotedComma);
      && e.line == Or(Column(headers, values, "LINEA"), DefaultLine)
      && e.category == Or(Column(headers, values, "CATEGORIA"), DefaultCategory)
      && e.product.name == Column(headers, values, "NOMBRE")
      && e.product.file == Column(headers, values, "ARCHIVO_GLB")
      && e.product.price == PriceOf(Column(headers, values, "PRECIO"))
      && e.product.ref == Or(Column(headers, values, "REF"), "")
      && e.product.desc == Or(Column(headers, values, "DESC"), "")
      && e.product.dims == Or(Column(headers, values, "DIMS"), "")
      && e.product.urlTech == Or(Column(headers, values, "URL_TECH"), DefaultUrl)
      && e.product.urlCert == Or(Column(headers, values, "URL_CERT"), DefaultUrl)
      && e.product.urlInst == Or(Column(headers, values, "URL_INST"), DefaultUrl)
      && e.product.img2d == Or(Column(headers, values, "IMG_2D"), "")
  {
    ItemReads(headers, Split(row, UnquotedComma), |headers|);
    assert headers[..|headers|] == headers;
  }

  /** The products filed under line `l` and category `c`; empty when there is no such branch. */
  function Bucket(t: Tree, l: string, c: string): seq<Product> {
    if l in t && c in t[l] then t[l][c] else []
  }

  /** `db[linea][cat].push(product)`, creating the branches on first use. */
  function Insert(t: Tree, e: Entry): (r: Tree)
    ensures r.Keys == t.Keys + {e.line}
    ensures forall c :: c in r[e.line] <==> c == e.category || (e.line in t && c in t[e.line])
    ensures Bucket(r, e.line, e.category) == Bucket(t, e.line, e.category) + [e.product]
    ensures forall l, c :: (l != e.line || c != e.category) ==> Bucket(r, l, c) == Bucket(t, l, c)
    ensures forall l :: l in t && l != e.line ==> r[l] == t[l]
  {
    var branch := if e.line in t then t[e.line] else map[];
    var bucket := if e.category in branch then branch[e.category] else [];
    t[e.line := branch[e.category := bucket + [e.product]]]
  }

  /** The loader's loop over the data rows. */
  function Build(headers: seq<string>, rows: seq<string>): Tree
    decreases |rows|
  {
    if |rows| == 0 then map[]
    else Insert(Build(headers, rows[..|rows| - 1]), MakeEntry(headers, rows[|rows| - 1]))
  }

  /** The products of the entries filed under `l` and `c`, in entry order. */
  function Filed(es: seq<Entry>, l: string, c: string): seq<Product> {
    if |es| == 0 then []
    else
      var e := es[|es| - 1];
      Filed(es[..|es| - 1], l, c) + (if e.line == l && e.category == c then [e.product] else [])
  }

  function Entries(headers: seq<string>, rows: seq<string>): (es: seq<Entry>)
    ensures |es| == |rows|
    ensures forall i :: 0 <= i < |rows| ==> es[i] == MakeEntry(headers, rows[i])
  {
    seq(|rows|, i requires 0 <= i < |rows| => MakeEntry(headers, rows[i]))
  }

  /** Each branch of `t` holds exactly the products `es` file under it. */
  ghost predicate FilesAll(t: Tree, es: seq<Entry>) {
    forall l, c :: Bucket(t, l, c) == Filed(es, l, c)
  }

  /** `t` has a product line exactly when some entry names it. */
  ghost predicate LinesExact(t: Tree, es: seq<Entry>) {
    forall l :: l in t <==> exists i :: 0 <= i < |es| && es[i].line == l
  }

  predicate HasBranch(t: Tree, l: string, c: string) {
    l in t && c in t[l]
  }

  ghost predicate Names(es: seq<Entry>, l: string, c: string) {
    exists i :: 0 <= i < |es| && es[i].line == l && es[i].category == c
  }

  /** `t` has a category under a line exactly when some entry names both. */
  ghost predicate BranchesExact(t: Tree, es: seq<Entry>) {
    forall l, c :: HasBranch(t, l, c) <==> Names(es, l, c)
  }

  lemma FilesStep(t: Tree, es: seq<Entry>, e: Entry)
    requires FilesAll(t, es)
    ensures FilesAll(Insert(t, e), es + [e])
  {
    assert (es + [e])[..|es|] == es;
  }

  lemma LinesStep(t: Tree, es: seq<Entry>, e: Entry)
    requires LinesExact(t, es)
    ensures LinesExact(Insert(t, e), es + [e])
  {
    var es2 := es + [e];
    forall l ensures l in Insert(t, e) <==> exists i :: 0 <= i < |es2| && es2[i].line == l {
      if l in t {
        var i :| 0 <= i < |es| && es[i].line == l;
        assert es2[i] == es[i];
      }
      if l == e.line {
        assert es2[|es|] == e;
      }
      if exists i :: 0 <= i < |es2| && es2[i].line == l {
        var i :| 0 <= i < |es2| && es2[i].line == l;
        if i < |es| { assert es2[i] == es[i]; }
      }
    }
  }

  lemma BranchesStep(t: Tree, es: seq<Entry>, e: Entry)
    requires BranchesExact(t, es)
    ensures BranchesExact(Insert(t, e), es + [e])
  {
    var es2 := es + [e];
    var r := Insert(t, e);
    forall l, c ensures HasBranch(r, l, c) <==> Names(es2, l, c) {
      if l == e.line && c == e.category {
        assert es2[|es|] == e;
      } else {
        assert HasBranch(r, l, c) <==> HasBranch(t, l, c);
        if Names(es, l, c) {
          var i :| 0 <= i < |es| && es[i].line == l && es[i].category == c;
          assert es2[i] == es[i];
        }
        if Names(es2, l, c) {
          var i :| 0 <= i < |es2| && es2[i].line == l && es2[i].category == c;
          assert es2[i] == es[i];
        }
      }
    }
  }

  lemma EntriesSnoc(headers: seq<string>, rows: seq<string>)
    requires |rows| > 0
    ensures Entries(headers, rows) == Entries(headers, rows[..|rows| - 1]) + [MakeEntry(headers, rows[|rows| - 1])]
  {
  }

  /**
   * The tree files every data row exactly once, in row order: each branch holds the products of
   * the rows naming that line and category, and the tree has a line (a category) exactly when
   * some row names it.
   */
  lemma {:induction false} BuildFilesRows(headers: seq<string>, rows: seq<string>)
    ensures FilesAll(Build(headers, rows), Entries(headers, rows))
    ensures LinesExact(Build(headers, rows), Entries(headers, rows))
    ensures BranchesExact(Build(headers, rows), Entries(headers, rows))
    decreases |rows|
  {
    if |rows| > 0 {
      var n := |rows| - 1;
      var prev := rows[..n];
      BuildFilesRows(headers, prev);
      var t := Build(headers, prev);
      var es := Entries(headers, prev);
      var e := MakeEntry(headers, rows[n]);
      EntriesSnoc(headers, rows);
      assert Build(headers, rows) == Insert(t, e);
      FilesStep(t, es, e);
      LinesStep(t, es, e);
      BranchesStep(t, es, e);
    }
  }

  /** Every character of a newline-joined text is whitespace exactly when every line is. */
  lemma {:induction false} JoinAllWhitespace(ps: seq<string>)
    ensures AllWhitespace(Join(ps, '\n')) <==> forall k :: 0 <= k < |ps| ==> AllWhitespace(ps[k])
  {
    if |ps| > 1 {
      var s := Join(ps, '\n');
      var tail := Join(ps[1..], '\n');
      JoinAllWhitespace(ps[1..]);
      assert s == ps[0] + ['\n'] + tail;
      if AllWhitespace(s) {
        forall k | 0 <= k < |ps| ensures AllWhitespace(ps[k]) {
          if k == 0 {
            assert forall i :: 0 <= i < |ps[0]| ==> ps[0][i] == s[i];
          } else {
            assert forall i :: 0 <= i < |tail| ==> tail[i] == s[|ps[0]| + 1 + i];
            assert ps[k] == ps[1..][k - 1];
          }
        }
      }
      if forall k :: 0 <= k < |ps| ==> AllWhitespace(ps[k]) {
        forall k | 0 <= k < |ps| - 1 ensures AllWhitespace(ps[1..][k]) {
          assert ps[1..][k] == ps[k + 1];
        }
        assert AllWhitespace(ps[0]);
      }
    }
  }

  /**
   * `parseCSVtoTree(csv)`. Lines are cut at `\n` and trimmed, blank ones are dropped, the first
   * remaining line names the columns and every later line files one product. A text with no
   * non-blank line is the error case.
   */
  function ParseCsvToTree(csv: string): (r: Result<Tree, ParseError>)
    ensures r.Err? <==> AllWhitespace(csv)
    ensures r.Ok? ==>
      var rows := Rows(Split(csv, Char('\n')));
      && |rows| > 0
      && FilesAll(r.value, Entries(Headers(rows[0]), rows[1..]))
      && LinesExact(r.value, Entries(Headers(rows[0]), rows[1..]))
      && BranchesExact(r.value, Entries(Headers(rows[0]), rows[1..]))
  {
    var lines := Split(csv, Char('\n'));
    var rows := Rows(lines);
    JoinAllWhitespace(lines);
    if |rows| == 0 then Err(NoHeaderRow)
    else
      var headers := Headers(rows[0]);
      BuildFilesRows(headers, rows[1..]);
      Ok(Build(headers, rows[1..]))
  }
}
