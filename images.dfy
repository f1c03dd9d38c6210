/**
 * The image phase of listToPDF.py (lines 77-125) over an abstract file
 * system: the destination directory and the temporary directory hold files
 * by name, PIL's open-and-verify is a fixed predicate on file contents, and
 * the Google image crawler is an oracle that writes files into the
 * temporary directory.
 */
module Images {
  import opened LexOrder
  import opened Seqs

  type Bytes = seq<bv8>

  /**
   * `validar_imagen(path)`: true when the file exists and its contents open
   * and verify as an image. A missing file is an error that the function
   * catches, so it is false there; the function never raises.
   */
  function ValidateImage(files: map<string, Bytes>, path: string, isImage: Bytes -> bool): bool
  {
    path in files && isImage(files[path])
  }

  /** The destination file of an item: `<name>.jpg`. */
  function JpgName(name: string): string {
    name + ".jpg"
  }

  /** A snapshot of the file system: the two directories and the keywords crawled so far. */
  datatype Dirs = Dirs(dest: map<string, Bytes>, tmp: map<string, Bytes>, crawls: seq<string>)

  /** The temporary directory once the crawl for `query` has written into it. */
  function AfterCrawl(s: Dirs, query: string, crawler: (string, nat) -> map<string, Bytes>): map<string, Bytes> {
    s.tmp + crawler(query, |s.crawls|)
  }

  /**
   * `descargar_imagen(query, ".", name)` on the snapshot `s`: the new snapshot
   * and the boolean the function returns.
   */
  ghost function Download(s: Dirs, query: string, name: string, isImage: Bytes -> bool,
                          crawler: (string, nat) -> map<string, Bytes>): (r: (Dirs, bool))
    // a valid cached image: True, no crawl, nothing changes
    ensures ValidateImage(s.dest, JpgName(name), isImage) ==> r == (s, true)
    // otherwise the crawler runs exactly once, with the query
    ensures !ValidateImage(s.dest, JpgName(name), isImage) ==> r.0.crawls == s.crawls + [query]
    // no destination file other than `<name>.jpg` is touched
    ensures forall f :: f != JpgName(name) ==> (f in r.0.dest <==> f in s.dest)
    ensures forall f :: f != JpgName(name) && f in s.dest ==> r.0.dest[f] == s.dest[f]
    // the result is True exactly when the cache was valid or the crawl left something in the temporary directory
    ensures r.1 <==> ValidateImage(s.dest, JpgName(name), isImage) || AfterCrawl(s, query, crawler) != map[]
    // on False, `<name>.jpg` does not exist, whether it was absent or corrupt before
    ensures !r.1 ==> JpgName(name) !in r.0.dest
    // unless the cache was valid, the temporary directory is empty afterwards
    ensures !ValidateImage(s.dest, JpgName(name), isImage) ==> r.0.tmp == map[]
    // a fetched image is the least-named file of the temporary directory
    ensures r.1 && !ValidateImage(s.dest, JpgName(name), isImage) ==>
      var tmp := AfterCrawl(s, query, crawler);
      JpgName(name) in r.0.dest && r.0.dest[JpgName(name)] == tmp[Least(tmp.Keys)]
  {
    var destFile := JpgName(name);
    if ValidateImage(s.dest, destFile, isImage) then (s, true)
    else
      var dest := s.dest - {destFile};
      var tmp := AfterCrawl(s, query, crawler);
      var crawls := s.crawls + [query];
      if tmp != map[] then
        var first := Least(tmp.Keys);
        (Dirs(dest[destFile := tmp[first]], map[], crawls), true)
      else
        (Dirs(dest, tmp, crawls), false)
  }

  /**
   * Once a call has left a valid `<name>.jpg`, the next call for the same
   * item returns True without crawling and changes nothing.
   */
  lemma SecondCallHitsCache(s: Dirs, query: string, name: string, isImage: Bytes -> bool,
                            crawler: (string, nat) -> map<string, Bytes>)
    requires var r := Download(s, query, name, isImage, crawler);
      r.1 && ValidateImage(r.0.dest, JpgName(name), isImage)
    ensures var r := Download(s, query, name, isImage, crawler);
      Download(r.0, query, name, isImage, crawler) == (r.0, true)
  {
  }

  /**
   * A freshly crawled file is moved into place without being validated: when
   * the cached file is missing or corrupt and the least-named crawled file is
   * not an image, the call still returns True, and the next call for the same
   * item crawls again.
   */
  lemma UnvalidatedFetchIsCrawledAgain(s: Dirs, query: string, name: string, isImage: Bytes -> bool,
                                       crawler: (string, nat) -> map<string, Bytes>)
    requires !ValidateImage(s.dest, JpgName(name), isImage)
    requires AfterCrawl(s, query, crawler) != map[]
    requires var tmp := AfterCrawl(s, query, crawler); !isImage(tmp[Least(tmp.Keys)])
    ensures var r1 := Download(s, query, name, isImage, crawler);
      && r1.1
      && JpgName(name) in r1.0.dest
      && Download(r1.0, query, name, isImage, crawler).0.crawls == r1.0.crawls + [query]
  {
  }

  /** A validator that rejects every file, and a crawler that always writes one file. */
  function RejectAll(b: Bytes): bool { false }
  function OneFile(keyword: string, n: nat): map<string, Bytes> { map["000001.jpg" := []] }

  /**
   * The hypotheses of `UnvalidatedFetchIsCrawledAgain` can be met: from an
   * empty file system, with a crawler that writes one unreadable file, the
   * item "kiwi" is crawled on both calls.
   */
  lemma KiwiIsCrawledTwice()
    ensures var r1 := Download(Dirs(map[], map[], []), "kiwi", "kiwi", RejectAll, OneFile);
      var r2 := Download(r1.0, "kiwi", "kiwi", RejectAll, OneFile);
      r1.1 && JpgName("kiwi") in r1.0.dest && r2.0.crawls == ["kiwi", "kiwi"]
  {
    var s := Dirs(map[], map[], []);
    var tmp := AfterCrawl(s, "kiwi", OneFile);
    assert tmp == map["000001.jpg" := []];
    assert "000001.jpg" in tmp;
    assert !RejectAll(tmp[Least(tmp.Keys)]);
    UnvalidatedFetchIsCrawledAgain(s, "kiwi", "kiwi", RejectAll, OneFile);
  }

  /**
   * The image phase (`for elem in elements: descargar_imagen(elem, IMG_DEST_DIR, elem)`):
   * the snapshot after handling every item in order, and what each call returned.
   */
  ghost function DownloadPhase(s: Dirs, elements: seq<string>, isImage: Bytes -> bool,
                               crawler: (string, nat) -> map<string, Bytes>): (r: (Dirs, seq<bool>))
    ensures |r.1| == |elements|
  {
    if elements == [] then (s, [])
    else
      var n := |elements| - 1;
      var before := DownloadPhase(s, elements[..n], isImage, crawler);
      var after := Download(before.0, elements[n], elements[n], isImage, crawler);
      (after.0, before.1 + [after.1])
  }

  /** The temporary directory is empty between items: empty before the phase, empty after every step of it. */
  lemma {:induction false} PhaseKeepsWorkspaceEmpty(s: Dirs, elements: seq<string>, isImage: Bytes -> bool,
                                                    crawler: (string, nat) -> map<string, Bytes>)
    requires s.tmp == map[]
    ensures DownloadPhase(s, elements, isImage, crawler).0.tmp == map[]
  {
    if elements != [] {
      PhaseKeepsWorkspaceEmpty(s, elements[..|elements| - 1], isImage, crawler);
    }
  }

  /** An item reported as downloaded has its `<name>.jpg` right after its own call. */
  lemma {:induction false} PhaseReportsFiles(s: Dirs, elements: seq<string>, isImage: Bytes -> bool,
                                             crawler: (string, nat) -> map<string, Bytes>, k: nat)
    requires k < |elements|
    ensures var r := DownloadPhase(s, elements[..k + 1], isImage, crawler);
      r.1[k] <==> JpgName(elements[k]) in r.0.dest
  {
    var r := DownloadPhase(s, elements[..k + 1], isImage, crawler);
    var before := DownloadPhase(s, elements[..k + 1][..k], isImage, crawler);
    var after := Download(before.0, elements[k], elements[k], isImage, crawler);
    assert r == (after.0, before.1 + [after.1]);
  }

  /** The image phase over a prefix of the items reports the prefix of the results. */
  lemma {:induction false} PhasePrefix(s: Dirs, elements: seq<string>, isImage: Bytes -> bool,
                                       crawler: (string, nat) -> map<string, Bytes>, j: nat)
    requires j <= |elements|
    ensures DownloadPhase(s, elements[..j], isImage, crawler).1 == DownloadPhase(s, elements, isImage, crawler).1[..j]
  {
    if j < |elements| {
      var n := |elements| - 1;
      PhasePrefix(s, elements[..n], isImage, crawler, j);
      assert elements[..n][..j] == elements[..j];
      var before := DownloadPhase(s, elements[..n], isImage, crawler);
      assert DownloadPhase(s, elements, isImage, crawler).1[..j] == before.1[..j];
    } else {
      assert elements[..j] == elements;
    }
  }

  /** Different item names give different destination files. */
  lemma JpgNameInjective(a: string, b: string)
    requires JpgName(a) == JpgName(b)
    ensures a == b
  {
    assert |a| == |b|;
    assert a == JpgName(a)[..|a|] && b == JpgName(b)[..|b|];
  }

  /**
   * What the image phase leaves for the table: an item's `<name>.jpg` exists
   * after the phase exactly when the last call for that item returned True,
   * since every later call touches only its own file.
   */
  lemma {:induction false} PhaseFinalFiles(s: Dirs, elements: seq<string>, isImage: Bytes -> bool,
                                           crawler: (string, nat) -> map<string, Bytes>, e: string)
    requires e in elements
    ensures var r := DownloadPhase(s, elements, isImage, crawler);
      r.1[LastIndex(elements, e)] <==> JpgName(e) in r.0.dest
  {
    var n := |elements| - 1;
    var before := DownloadPhase(s, elements[..n], isImage, crawler);
    var after := Download(before.0, elements[n], elements[n], isImage, crawler);
    assert DownloadPhase(s, elements, isImage, crawler) == (after.0, before.1 + [after.1]);
    if elements[n] == e {
      assert LastIndex(elements, e) == n;
    } else {
      assert e in elements[..n] by {
        var k := LastIndex(elements, e);
        assert elements[..n][k] == e;
      }
      assert LastIndex(elements, e) == LastIndex(elements[..n], e) by {
        var k := LastIndex(elements, e);
        assert elements[..n][k] == e;
      }
      PhaseFinalFiles(s, elements[..n], isImage, crawler, e);
      if JpgName(e) == JpgName(elements[n]) {
        JpgNameInjective(e, elements[n]);
      }
    }
  }

  /**
   * The file system the script works on. `dest` is the destination directory
   * (`IMG_DEST_DIR`) and `tmp` the crawler's directory (`IMG_TMP_DIR`), each
   * a map from file name to contents; `crawls` logs the keywords of the
   * crawls run so far. `isImage` is what PIL's `open` and `verify` accept;
   * `crawler(keyword, n)` is what the `n`-th crawl writes into `tmp`.
   */
  class FileSystem {
    var dest: map<string, Bytes>
    var tmp: map<string, Bytes>
    var crawls: seq<string>
    const isImage: Bytes -> bool
    const crawler: (string, nat) -> map<string, Bytes>

    constructor (dest: map<string, Bytes>, tmp: map<string, Bytes>,
                 isImage: Bytes -> bool, crawler: (string, nat) -> map<string, Bytes>)
      ensures this.dest == dest && this.tmp == tmp && crawls == []
      ensures this.isImage == isImage && this.crawler == crawler
    {
      this.dest := dest;
      this.tmp := tmp;
      crawls := [];
      this.isImage := isImage;
      this.crawler := crawler;
    }

    function State(): Dirs
      reads this
    {
      Dirs(dest, tmp, crawls)
    }

    /** `os.remove` of a destination file. */
    method RemoveDest(f: string)
      requires f in dest
      modifies this`dest
      ensures dest == old(dest) - {f}
    {
      dest := dest - {f};
    }

    /** `os.remove` of a temporary file. */
    method RemoveTemp(f: string)
      requires f in tmp
      modifies this`tmp
      ensures tmp == old(tmp) - {f}
    {
      tmp := tmp - {f};
    }

    /** `GoogleImageCrawler(storage={'root_dir': IMG_TMP_DIR}).crawl(keyword=keyword, max_num=1)`. */
    method Crawl(keyword: string)
      modifies this`tmp, this`crawls
      ensures tmp == old(tmp) + crawler(keyword, |old(crawls)|)
      ensures crawls == old(crawls) + [keyword]
    {
      tmp := tmp + crawler(keyword, |crawls|);
      crawls := crawls + [keyword];
    }

    /** `shutil.move` of a temporary file into the destination directory, under the name `to`. */
    method Move(from: string, to: string)
      requires from in tmp
      modifies this`tmp, this`dest
      ensures dest == old(dest)[to := old(tmp)[from]]
      ensures tmp == old(tmp) - {from}
    {
      dest := dest[to := tmp[from]];
      tmp := tmp - {from};
    }

    /** The loop of the image phase: one download per item, the item itself as the query. */
    method DownloadAll(elements: seq<string>) returns (results: seq<bool>)
      modifies this
      ensures (State(), results) == DownloadPhase(old(State()), elements, isImage, crawler)
    {
      results := [];
      var i := 0;
      while i < |elements|
        invariant 0 <= i <= |elements|
        invariant (State(), results) == DownloadPhase(old(State()), elements[..i], isImage, crawler)
      {
        var elem := elements[i];
        var ok := DownloadImage(elem, elem);
        results := results + [ok];
        assert elements[..i + 1][..i] == elements[..i];
        i := i + 1;
      }
      assert elements[..i] == elements;
    }

    /**
     * `descargar_imagen(query, IMG_DEST_DIR, name)`: reuse a valid
     * `<name>.jpg`; otherwise remove a corrupt one, crawl, and move the
     * least-named crawled file to `<name>.jpg`, then empty the temporary
     * directory.
     */
    method DownloadImage(query: string, name: string) returns (ok: bool)
      modifies this
      ensures (State(), ok) == Download(old(State()), query, name, isImage, crawler)
    {
      var destFile := JpgName(name);
      if destFile in dest {
        if ValidateImage(dest, destFile, isImage) {
          return true;
        }
        RemoveDest(destFile);
      }
      assert dest == old(dest) - {destFile};
      Crawl(query);
      if tmp != map[] {
        LeastExists(tmp.Keys);
        var first :| IsLeast(first, tmp.Keys);
        LeastUnique(first, Least(tmp.Keys), tmp.Keys);
        Move(first, destFile);
        ghost var moved := dest;
        // the cleanup loop over `os.listdir(IMG_TMP_DIR)`
        var names := tmp.Keys;
        while names != {}
          invariant tmp.Keys == names
          invariant dest == moved
          invariant crawls == old(crawls) + [query]
          decreases names
        {
          var f :| f in names;
          RemoveTemp(f);
          names := names - {f};
        }
        assert tmp == map[];
        return true;
      }
      return false;
    }
  }
}
