/**
 * The table rows of listToPDF.py (lines 135-143): one LaTeX row per item,
 * in item order, appended to the accumulator `latex_rows`. A row holds the
 * item's image, then its translations in the column order es, ca, en, fr, ma.
 */
module Rows {
  import opened Config
  import opened Translation

  /** The image cell of an item: `\includegraphics[width=3.5cm,height=3.5cm]{<elem>.jpg}`. */
  function ImageRef(elem: string): string {
    "\\includegraphics[width=" + ImgWidth + ",height=" + ImgHeight + "]{" + elem + ".jpg}"
  }

  /** The column separator and the end of a row, `\\ \hline` and a line break. */
  const Sep: string := " & "
  const RowEnd: string := " \\\\ \\hline\n"

  /** The row the loop appends for one item, with its columns as the source writes them. */
  function Row(elem: string, tr: Record): string
    requires LangKeys <= tr.Keys
  {
    LangKeysListed();
    ImageRef(elem) + Sep + tr["es"] + Sep + tr["ca"] + Sep + tr["en"] + Sep + tr["fr"] + Sep + tr["ma"] + RowEnd
  }

  /** The cells of a row as the table is laid out: the image, then one translation per language of `lang_codes`, in its order. */
  function Cells(elem: string, tr: Record): seq<string>
    requires LangKeys <= tr.Keys
  {
    [ImageRef(elem)] + seq(|LangCodes|, i requires 0 <= i < |LangCodes| => tr[KeyAt(i)])
  }

  /** The cells written one after another with `sep` between them. */
  function Join(cells: seq<string>, sep: string): string {
    if |cells| <= 1 then (if cells == [] then "" else cells[0])
    else Join(cells[..|cells| - 1], sep) + sep + cells[|cells| - 1]
  }

  /** A row is its cells, image first and translations in the order of `lang_codes`, joined by ` & `. */
  lemma RowColumns(elem: string, tr: Record)
    requires LangKeys <= tr.Keys
    ensures Row(elem, tr) == Join(Cells(elem, tr), Sep) + RowEnd
  {
    LangKeysListed();
    var c := Cells(elem, tr);
    assert c == [ImageRef(elem), tr["es"], tr["ca"], tr["en"], tr["fr"], tr["ma"]];
    assert c[..1] == [ImageRef(elem)];
    assert Join(c[..2], Sep) == ImageRef(elem) + Sep + tr["es"] by {
      assert c[..2][..1] == c[..1];
    }
    assert Join(c[..3], Sep) == ImageRef(elem) + Sep + tr["es"] + Sep + tr["ca"] by {
      assert c[..3][..2] == c[..2];
    }
    assert Join(c[..4], Sep) == ImageRef(elem) + Sep + tr["es"] + Sep + tr["ca"] + Sep + tr["en"] by {
      assert c[..4][..3] == c[..3];
    }
    assert Join(c[..5], Sep) == ImageRef(elem) + Sep + tr["es"] + Sep + tr["ca"] + Sep + tr["en"] + Sep + tr["fr"] by {
      assert c[..5][..4] == c[..4];
    }
    assert c[..6] == c;
  }

  /** The strings of `parts` written one after another. */
  function Concat(parts: seq<string>): string {
    if parts == [] then "" else Concat(parts[..|parts| - 1]) + parts[|parts| - 1]
  }

  /** The rows of the table: row `i` belongs to item `i`. */
  function RowsOf(elements: seq<string>, translations: map<string, Record>): seq<string>
    requires forall e :: e in elements ==> e in translations && LangKeys <= translations[e].Keys
  {
    seq(|elements|, i requires 0 <= i < |elements| => Row(elements[i], translations[elements[i]]))
  }

  /**
   * The loop that builds `latex_rows`: the rows of the items, one per item,
   * in item order. `translations[elem]` must exist for every item (the
   * script would stop with a `KeyError` otherwise).
   */
  method AssembleRows(elements: seq<string>, translations: map<string, Record>) returns (latexRows: string)
    requires forall e :: e in elements ==> e in translations && LangKeys <= translations[e].Keys
    ensures latexRows == Concat(RowsOf(elements, translations))
  {
    latexRows := "";
    LangKeysListed();
    var i := 0;
    while i < |elements|
      invariant 0 <= i <= |elements|
      invariant latexRows == Concat(RowsOf(elements[..i], translations))
    {
      var elem := elements[i];
      var tr := translations[elem];
      latexRows := latexRows + (
        "\\includegraphics[width=" + ImgWidth + ",height=" + ImgHeight + "]{" + elem + ".jpg}" + " & "
        + tr["es"] + " & " + tr["ca"] + " & " + tr["en"] + " & " + tr["fr"] + " & " + tr["ma"] + " \\\\ \\hline\n");
      assert RowsOf(elements[..i + 1], translations) == RowsOf(elements[..i], translations) + [Row(elem, tr)];
      i := i + 1;
    }
    assert elements[..i] == elements;
  }

  /** The number of line breaks in `s`. */
  function Newlines(s: string): nat {
    if s == [] then 0 else Newlines(s[..|s| - 1]) + (if s[|s| - 1] == '\n' then 1 else 0)
  }

  lemma {:induction false} NewlinesAppend(a: string, b: string)
    ensures Newlines(a + b) == Newlines(a) + Newlines(b)
  {
    if b != [] {
      var n := |b| - 1;
      NewlinesAppend(a, b[..n]);
      assert (a + b)[..|a + b| - 1] == a + b[..n];
      assert (a + b)[|a + b| - 1] == b[n];
    } else {
      assert a + b == a;
    }
  }

  lemma {:induction false} NoNewlines(s: string)
    requires OneLine(s)
    ensures Newlines(s) == 0
  {
    if s != [] {
      NoNewlines(s[..|s| - 1]);
    }
  }

  /** A string with no line break. */
  predicate OneLine(s: string) {
    forall k :: 0 <= k < |s| ==> s[k] != '\n'
  }

  lemma OneLineAppend(a: string, b: string)
    requires OneLine(a) && OneLine(b)
    ensures OneLine(a + b)
  {
    assert forall k :: |a| <= k < |a + b| ==> (a + b)[k] == b[k - |a|];
  }

  /** A row whose item and translations hold no line break is one line: a single line break, at its end. */
  lemma RowIsOneLine(e: string, tr: Record)
    requires LangKeys <= tr.Keys
    requires OneLine(e) && forall k :: k in LangKeys ==> OneLine(tr[k])
    ensures Newlines(Row(e, tr)) == 1
  {
    LangKeysListed();
    OneLineAppend("\\includegraphics[width=" + ImgWidth + ",height=" + ImgHeight + "]{", e);
    OneLineAppend("\\includegraphics[width=" + ImgWidth + ",height=" + ImgHeight + "]{" + e, ".jpg}");
    var line := ImageRef(e);
    OneLineAppend(line, Sep);
    OneLineAppend(line + Sep, tr["es"]);
    line := line + Sep + tr["es"];
    OneLineAppend(line, Sep);
    OneLineAppend(line + Sep, tr["ca"]);
    line := line + Sep + tr["ca"];
    OneLineAppend(line, Sep);
    OneLineAppend(line + Sep, tr["en"]);
    line := line + Sep + tr["en"];
    OneLineAppend(line, Sep);
    OneLineAppend(line + Sep, tr["fr"]);
    line := line + Sep + tr["fr"];
    OneLineAppend(line, Sep);
    OneLineAppend(line + Sep, tr["ma"]);
    line := line + Sep + tr["ma"];
    OneLineAppend(line, " \\\\ \\hline");
    line := line + " \\\\ \\hline";
    assert Row(e, tr) == line + "\n";
    NoNewlines(line);
    NewlinesAppend(line, "\n");
  }

  /**
   * When no item and no translation holds a line break, the rows are exactly
   * one line per item: the output has one line break per item.
   */
  lemma {:induction false} OneLinePerItem(elements: seq<string>, translations: map<string, Record>)
    requires forall e :: e in elements ==> e in translations && LangKeys <= translations[e].Keys
    requires forall e :: e in elements ==> OneLine(e) && forall k :: k in LangKeys ==> OneLine(translations[e][k])
    ensures Newlines(Concat(RowsOf(elements, translations))) == |elements|
  {
    if elements != [] {
      var n := |elements| - 1;
      var e := elements[n];
      OneLinePerItem(elements[..n], translations);
      assert RowsOf(elements, translations)[..n] == RowsOf(elements[..n], translations);
      RowIsOneLine(e, translations[e]);
      NewlinesAppend(Concat(RowsOf(elements[..n], translations)), Row(e, translations[e]));
    }
  }

  /**
   * The translation phase leaves a total record for every item, so the rows
   * of every item can be built from what `procesar_traducciones` returns.
   */
  lemma RowsDefined(answer: (string, string, nat) -> Wrappers.Option<string>, first: nat, elements: seq<string>)
    ensures var translations := ByItem(elements, ItemRecords(answer, first, elements));
      forall e :: e in elements ==> e in translations && LangKeys <= translations[e].Keys
  {
    TranslationsTotal(answer, first, elements);
  }
}
