/**
 * The fixed configuration block at the top of listToPDF.py:
 * the language table and the size of the images in the table.
 */
module Config {

  /**
   * `lang_codes`, in insertion order: the key used in a translation record
   * and the target language handed to the translator ("ma", Moroccan, is
   * approximated by Arabic, "ar").
   */
  const LangCodes: seq<(string, string)> :=
    [("es", "es"), ("ca", "ca"), ("en", "en"), ("fr", "fr"), ("ma", "ar")]

  /** The key set of `lang_codes`. */
  const LangKeys: set<string> := KeysOf(LangCodes)

  /** The first components of a table's pairs. */
  function KeysOf(table: seq<(string, string)>): set<string> {
    if table == [] then {} else KeysOf(table[..|table| - 1]) + {table[|table| - 1].0}
  }

  /** The keys of `lang_codes`, listed. */
  lemma LangKeysListed()
    ensures LangKeys == {"es", "ca", "en", "fr", "ma"}
  {
    assert LangCodes[..1] == [("es", "es")];
    assert KeysOf(LangCodes[..1]) == {"es"};
    assert KeysOf(LangCodes[..2]) == {"es", "ca"} by { assert LangCodes[..2][..1] == LangCodes[..1]; }
    assert KeysOf(LangCodes[..3]) == {"es", "ca", "en"} by { assert LangCodes[..3][..2] == LangCodes[..2]; }
    assert KeysOf(LangCodes[..4]) == {"es", "ca", "en", "fr"} by { assert LangCodes[..4][..3] == LangCodes[..3]; }
    assert LangCodes[..5] == LangCodes;
  }

  /** `IMG_WIDTH` and `IMG_HEIGHT`. */
  const ImgWidth: string := "3.5cm"
  const ImgHeight: string := "3.5cm"

  /** Record key of the `i`-th language of the table. */
  function KeyAt(i: nat): (key: string)
    requires i < |LangCodes|
    ensures key in LangKeys
  {
    LangKeysListed();
    LangCodes[i].0
  }

  /** Target language of the `i`-th language of the table. */
  function DestAt(i: nat): string
    requires i < |LangCodes|
  {
    LangCodes[i].1
  }
}
