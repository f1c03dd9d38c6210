# listToPDF — a verified model of the acquisition pipeline

`listToPDF.py` turns a list of item names (fruit and vegetables, one per
line) into a LaTeX table. For each item it gets translations into Spanish,
Catalan, English, French and Moroccan Arabic, and it gets an image. It then
writes one table row per item. Most of the script is network and file I/O.
Under that I/O sits a small, deterministic decision pipeline. This project
models that pipeline in Dafny and proves what it guarantees. The translator,
the image crawler and PIL's image check are oracles, fixed for a run.

Modules, one per part of the script:

- `Config` (`config.dfy`): the language table `lang_codes` (key, then
  target language; "ma" is sent to the translator as "ar") and the image size.
- `ItemList` (`item_list.dfy`): `str.strip()` with Python's set of whitespace
  characters, and the list comprehension that builds `elements`.
- `Translation` (`translation.dfy`): the translator as a class. Its
  `answer(text, dest, n)` gives the reply to the `n`-th call of the run, or
  `None` when that call raises, and its `calls` log records every request.
  The module also holds `obtener_traducciones` (a loop over the languages
  that fills `traducciones`) and `procesar_traducciones` (the gathered
  records, then a loop that fills `resultados`).
- `LexOrder` (`lex_order.dfy`): Python's ordering of strings. `sorted(names)[0]`
  is the unique least name of the set.
- `Images` (`images.dfy`): the file system is a class with two directories.
  Each directory maps a file name to the file's contents. The class also
  logs the keywords crawled so far. `ValidateImage` abstracts `validar_imagen`
  (lines 78-88): a file is valid when it exists and PIL accepts its
  contents, and the check never raises.
  `descargar_imagen` is a method whose new state is given by the function
  `Download`, and the image-phase loop is specified by `DownloadPhase`.
- `Rows` (`rows.dfy`): the row string of one item and the loop that
  accumulates `latex_rows`.
- `Wrappers` (`wrappers.dfy`): `Option`, the outcome of a call into an oracle.
- `Seqs` (`seqs.dfy`): the last position of an item in a sequence, used by
  both phases when an item occurs more than once.

Three facts about the code shape the model:

- Within one item, `obtener_traducciones` translates the languages one after
  another (lines 51-53). Each call is awaited before the next one is issued.
- A freshly crawled image is moved into place without being validated
  (lines 113-122). A call can therefore return True and leave a corrupt
  `<name>.jpg`. Only when the stored file validates does a second call for
  the same item skip the crawler (`SecondCallHitsCache`). Otherwise the
  second call crawls again (`UnvalidatedFetchIsCrawledAgain`).
- `validar_imagen` only reads the file (lines 78-88). The corrupt file is
  deleted by `descargar_imagen`, at line 106.

## Model

| member | source | states |
|---|---|---|
| `Config.LangKeysListed` | listToPDF.py:25-31 | the keys of `lang_codes` are exactly es, ca, en, fr and ma |
| `Config.KeyAt` | listToPDF.py:25-31 | the key of each table entry is one of the keys of `lang_codes` |
| `ItemList.LeadingSpaces` | listToPDF.py:42 | the characters `lstrip` removes are all whitespace, and the first one it keeps is not |
| `ItemList.TrailingSpaces` | listToPDF.py:42 | the characters `rstrip` removes are all whitespace, and the last one it keeps is not |
| `ItemList.Strip` | listToPDF.py:42 | `line.strip()` is a slice of the line with only whitespace on either side of it and no whitespace at either end |
| `ItemList.StripUnique` | listToPDF.py:42 | any string meeting that description is `Strip(s)`, so the description determines strip |
| `ItemList.StripIdempotent` | listToPDF.py:42 | stripping twice gives the same as stripping once |
| `ItemList.StripEmpty` | listToPDF.py:42 | a line strips to the empty string exactly when it is whitespace only, so exactly those lines are dropped |
| `ItemList.ParseElements` | listToPDF.py:41-42 | no element is empty, and there are at most as many elements as lines |
| `ItemList.ParseKeepsOrder` | listToPDF.py:41-42 | element `k` is the stripped line `idx[k]`, the positions increase (line order is kept), and every line left out is blank |
| `Translation.Translator.Translate` | listToPDF.py:53 | one request, logged; the reply is the oracle's answer for that call |
| `Translation.PartialRecord` | listToPDF.py:50-57 | after `n` languages the dictionary has exactly their keys, each holding the reply or, on failure, the item |
| `Translation.RecordOf` | listToPDF.py:45-58 | the record has exactly the keys es, ca, en, fr, ma; a failed language maps to the item itself and a successful one to the translator's text |
| `Translation.TranslateItem` | listToPDF.py:45-58 | exactly one request per language, in table order, with no request dropped after a failure; the result is `RecordOf` of the replies to those requests |
| `Seqs.LastIndex` | listToPDF.py:69-70 | the position of the last occurrence of an item |
| `Translation.ByItem` | listToPDF.py:66-71 | the keys of `resultados` are the items, and an item maps to the record at its last position, so the last occurrence wins |
| `Translation.ItemRecords` | listToPDF.py:67-68 | one record per task, in item order |
| `Translation.ItemRecordAt` | listToPDF.py:67-68 | record `k` is the translation of item `k`, made with the replies to the requests that follow those of the earlier items |
| `Translation.GatherRecords` | listToPDF.py:67-68 | the call log grows by every item's requests, item after item, and the records are `ItemRecords` of the replies |
| `Translation.IndexByItem` | listToPDF.py:69-70 | the enumerate loop builds exactly `ByItem` of the items and records |
| `Translation.TranslatedItem` | listToPDF.py:60-71 | every item is a key, and its record is built from the replies to the requests issued for its last occurrence |
| `Translation.TranslationsTotal` | listToPDF.py:60-71 | the keys are exactly the items, and every record is total over `lang_codes` |
| `Translation.TranslateAll` | listToPDF.py:60-71 | the call log grows by all items' requests, and the result is `ByItem` of the gathered records |
| `LexOrder.LexLeReflexive` | listToPDF.py:114 | the order on names is reflexive |
| `LexOrder.LexLeTotal` | listToPDF.py:114 | any two names are comparable |
| `LexOrder.LexLeAntisymmetric` | listToPDF.py:114 | two names that are each at most the other are equal |
| `LexOrder.LexLeTransitive` | listToPDF.py:114 | the order on names is transitive |
| `LexOrder.LeastExists` | listToPDF.py:113-114 | a non-empty directory listing has a least name |
| `LexOrder.LeastUnique` | listToPDF.py:114 | the least name is unique, so `sorted(archivos)[0]` is well defined |
| `LexOrder.Least` | listToPDF.py:114 | `sorted(archivos)[0]`: a member of the listing that is at most every other member |
| `Images.Download` | listToPDF.py:91-125 | a valid cached file gives True with no crawl and no change. Otherwise the crawler runs exactly once and only `<name>.jpg` may change. The result is True exactly when the crawl left a file; on False `<name>.jpg` is absent, so a corrupt file is gone. On a fetch, `<name>.jpg` holds the least-named file of the temporary directory after the crawl (files already there before the crawl included), and the temporary directory is empty |
| `Images.SecondCallHitsCache` | listToPDF.py:98-103 | after a call that leaves a valid `<name>.jpg`, the next call returns True, does not crawl and changes nothing |
| `Images.UnvalidatedFetchIsCrawledAgain` | listToPDF.py:112-122 | for every file system, validator and crawler: when the cached file is not valid and the least-named crawled file is not an image, the call still returns True and leaves `<name>.jpg`, and the next call for that item crawls again |
| `Images.KiwiIsCrawledTwice` | listToPDF.py:98-122 | a concrete run that meets those hypotheses: from an empty file system, with one unreadable crawled file, the item is crawled on both calls |
| `Images.DownloadPhase` | listToPDF.py:127-133 | the image phase reports one result per item |
| `Images.PhaseKeepsWorkspaceEmpty` | listToPDF.py:119-121 | if the temporary directory is empty when the image phase starts, it is empty after every item |
| `Images.PhaseReportsFiles` | listToPDF.py:128-132 | an item's reported result is True exactly when its `<name>.jpg` exists right after its call |
| `Images.PhasePrefix` | listToPDF.py:128-132 | the results of the phase over the first `j` items are the first `j` results of the whole phase |
| `Images.PhaseFinalFiles` | listToPDF.py:127-133 | after the whole phase, an item's `<name>.jpg` exists exactly when the last call for that item returned True: later calls for other items touch only their own files |
| `Images.FileSystem.RemoveDest` | listToPDF.py:106 | `os.remove` deletes exactly that destination file |
| `Images.FileSystem.Crawl` | listToPDF.py:109-111 | the crawl adds the oracle's files to the temporary directory and logs the keyword |
| `Images.FileSystem.Move` | listToPDF.py:116 | `shutil.move` puts the temporary file's contents under the new name and removes it from the temporary directory |
| `Images.FileSystem.RemoveTemp` | listToPDF.py:120-121 | `os.remove` deletes exactly that temporary file |
| `Images.FileSystem.DownloadImage` | listToPDF.py:91-125 | the new file system and the returned boolean are exactly those of `Download` |
| `Images.FileSystem.DownloadAll` | listToPDF.py:127-133 | the new file system and the per-item results are exactly those of `DownloadPhase` |
| `Rows.RowColumns` | listToPDF.py:140-143 | a row is its cells joined by ` & `: the image `<elem>.jpg` first, then the translations in `lang_codes` order es, ca, en, fr, ma, and the row ends with `\\ \hline` |
| `Rows.AssembleRows` | listToPDF.py:136-143 | `latex_rows` is the concatenation of one row per item, in item order |
| `Rows.RowIsOneLine` | listToPDF.py:140-143 | a row whose item and translations hold no line break contains exactly one line break |
| `Rows.OneLinePerItem` | listToPDF.py:136-143 | under the same condition, `latex_rows` contains exactly one line break per item |
| `Rows.RowsDefined` | listToPDF.py:137-138 | every item has a record with all five keys, so `translations[elem]` and `tr[key]` never fail |

## Left out

- Reading `lista.txt` (line 41) is I/O: opening the file, UTF-8 decoding and universal-newline translation are not modelled. The model starts from the lines the file iterator yields.
- The googletrans `Translator` (lines 38, 53) is an oracle. Each call either returns a text or raises, and every exception is the same failure; the error message is not modelled.
- asyncio scheduling (`create_task`, `gather`, `asyncio.run`; lines 67-68, 74) is not modelled. The model translates the items one after another, so its call log lists the requests item by item. In a real run, requests from different items may interleave. Only the alignment of each record with its item is kept.
- The crawler (`GoogleImageCrawler.crawl`, lines 109-111) is an oracle that writes files into the temporary directory. `max_num=1` is not enforced: the oracle may write any number of files. Exceptions raised by the crawler, `os.remove` or `shutil.move` are not modelled. In the source they propagate and end the script.
- PIL's `Image.open` and `verify` (lines 83-84) are an uninterpreted predicate on file contents.
- Only one destination directory is modelled. The `destino` parameter of `descargar_imagen` is always `IMG_DEST_DIR` (line 130), which is `"."`, the current working directory (line 17).
- File names are compared exactly: case-sensitive, with no Unicode normalisation, as `dest` and `tmp` are maps keyed by the exact name. On the default file systems of macOS and Windows, `os.path.exists`, `os.remove` and `shutil.move` (lines 100, 106, 116) ignore case. There, items that differ only in case or normalisation (`Kiwi` and `kiwi`) share one `<name>.jpg`. A later call for one of them can then skip its crawl, or delete the other's corrupt file. The model does not capture that, and `PhaseFinalFiles` holds only under exact names.
- Item names are assumed to contain no path separator, so `<name>.jpg` is always a file directly in `.` and never a file inside `tmp_imagenes` (lines 15-17, 98). The model keeps the two directories as disjoint maps. In the source, an item line such as `tmp_imagenes/000001` makes line 116 move the crawled `000001.jpg` onto itself, and lines 120-121 then delete it: the call returns True and leaves no file, where `Download` says `<name>.jpg` exists.
- `time.sleep(1)` (line 118) has no logical effect and is left out. So are the `print` logging, `os.makedirs` (line 35), the LaTeX preamble and skeleton (lines 145-164), writing `tabla.tex` (lines 166-167) and the external PDF compilation.
- Rows.OneLinePerItem: the source does not escape LaTeX. The lemma therefore assumes that no item and no translation contains a line break. A translation containing `&` or `\\` would also break the column structure, and this is not modelled.
