/**
 * The translation phase of listToPDF.py (lines 45-71): every item is sent to
 * the translator once per language of `lang_codes`; a failed call falls back
 * to the item's own text; the records are then collected into a dictionary
 * keyed by item.
 */
module Translation {
  import opened Wrappers
  import opened Config
  import opened Seqs

  /** One item's translations: language key to text. */
  type Record = map<string, string>

  /**
   * The googletrans `Translator`, seen from outside: `answer(text, dest, n)`
   * is what the `n`-th call of the run (counting from 0) gives back, `None`
   * when that call raises. `calls` logs every request made so far.
   */
  class Translator {
    const answer: (string, string, nat) -> Option<string>
    var calls: seq<(string, string)>

    constructor (answer: (string, string, nat) -> Option<string>)
      ensures this.answer == answer && calls == []
    {
      this.answer := answer;
      calls := [];
    }

    /** `translator.translate(text, dest=dest)`: one request, logged. */
    method Translate(text: string, dest: string) returns (reply: Option<string>)
      modifies this`calls
      ensures calls == old(calls) + [(text, dest)]
      ensures reply == answer(text, dest, |old(calls)|)
    {
      reply := answer(text, dest, |calls|);
      calls := calls + [(text, dest)];
    }
  }

  /** The value stored for one language: the translation, or the item itself when the call failed. */
  function Resolve(elem: string, reply: Option<string>): string {
    match reply
    case Some(text) => text
    case None => elem
  }

  /** The requests the translation of `elem` issues, one per language, in table order. */
  function Requests(elem: string): seq<(string, string)> {
    seq(|LangCodes|, i requires 0 <= i < |LangCodes| => (elem, DestAt(i)))
  }

  /** The replies to those requests when the first of them is call number `first` of the run. */
  function Replies(answer: (string, string, nat) -> Option<string>, elem: string, first: nat): seq<Option<string>> {
    seq(|LangCodes|, i requires 0 <= i < |LangCodes| => answer(elem, DestAt(i), first + i))
  }

  /** The keys of the first `n` languages of the table. */
  function KeysUpTo(n: nat): (keys: set<string>)
    requires n <= |LangCodes|
    ensures forall i :: 0 <= i < n ==> KeyAt(i) in keys
  {
    if n == 0 then {} else KeysUpTo(n - 1) + {KeyAt(n - 1)}
  }

  /** The dictionary `traducciones` once the loop has handled the first `n` languages. */
  function PartialRecord(elem: string, replies: seq<Option<string>>, n: nat): (rec: Record)
    requires |replies| == |LangCodes| && n <= |LangCodes|
    ensures rec.Keys == KeysUpTo(n)
    ensures forall i :: 0 <= i < n ==> rec[KeyAt(i)] == Resolve(elem, replies[i])
  {
    if n == 0 then map[]
    else
      var rec := PartialRecord(elem, replies, n - 1)[KeyAt(n - 1) := Resolve(elem, replies[n - 1])];
      assert forall i :: 0 <= i < n - 1 ==> KeyAt(i) != KeyAt(n - 1);
      rec
  }

  /**
   * The record `obtener_traducciones` returns for the replies `replies`: it has
   * exactly the keys of `lang_codes`, a failed language holds the item itself
   * and a successful one holds the translator's text.
   */
  function RecordOf(elem: string, replies: seq<Option<string>>): (rec: Record)
    requires |replies| == |LangCodes|
    ensures rec.Keys == LangKeys
    ensures forall i :: 0 <= i < |LangCodes| && replies[i].None? ==> rec[KeyAt(i)] == elem
    ensures forall i :: 0 <= i < |LangCodes| && replies[i].Some? ==> rec[KeyAt(i)] == replies[i].value
  {
    var rec := PartialRecord(elem, replies, |LangCodes|);
    assert KeysUpTo(1) == {"es"};
    assert KeysUpTo(2) == {"es", "ca"};
    assert KeysUpTo(3) == {"es", "ca", "en"};
    assert KeysUpTo(4) == {"es", "ca", "en", "fr"};
    assert KeysUpTo(5) == {"es", "ca", "en", "fr", "ma"};
    LangKeysListed();
    rec
  }

  /**
   * `obtener_traducciones(elem)`: one request per language, in table order,
   * each failure replaced by `elem` without stopping the loop.
   */
  method TranslateItem(elem: string, translator: Translator) returns (traducciones: Record)
    modifies translator
    ensures translator.calls == old(translator.calls) + Requests(elem)
    ensures traducciones == RecordOf(elem, Replies(translator.answer, elem, |old(translator.calls)|))
  {
    ghost var first := |translator.calls|;
    ghost var replies := Replies(translator.answer, elem, first);
    traducciones := map[];
    var i := 0;
    while i < |LangCodes|
      invariant 0 <= i <= |LangCodes|
      invariant translator.calls == old(translator.calls) + Requests(elem)[..i]
      invariant traducciones == PartialRecord(elem, replies, i)
    {
      var reply := translator.Translate(elem, DestAt(i));
      match reply {
        case Some(text) => traducciones := traducciones[KeyAt(i) := text];
        case None => traducciones := traducciones[KeyAt(i) := elem];
      }
      assert Requests(elem)[..i + 1] == Requests(elem)[..i] + [(elem, DestAt(i))];
      i := i + 1;
    }
    assert Requests(elem)[..i] == Requests(elem);
  }

  /**
   * The dictionary `resultados` that `procesar_traducciones` fills from the
   * gathered records: its keys are the items, and an item maps to the record
   * at its last position, since a later assignment overwrites an earlier one.
   */
  function ByItem(elements: seq<string>, records: seq<Record>): (m: map<string, Record>)
    requires |records| == |elements|
    ensures m.Keys == set e | e in elements
    ensures forall e {:trigger m[e]} :: e in m ==> m[e] == records[LastIndex(elements, e)]
  {
    if elements == [] then map[]
    else
      var n := |elements| - 1;
      var m := ByItem(elements[..n], records[..n])[elements[n] := records[n]];
      assert forall e :: e in elements[..n] && e != elements[n] ==> LastIndex(elements, e) == LastIndex(elements[..n], e);
      assert forall e :: e in elements <==> e in elements[..n] || e == elements[n];
      m
  }

  /** All requests of the translation phase, item after item. */
  function AllRequests(elements: seq<string>): seq<(string, string)>
  {
    if elements == [] then []
    else AllRequests(elements[..|elements| - 1]) + Requests(elements[|elements| - 1])
  }

  /**
   * The record of item `k`: it is translated with the replies to the
   * requests that follow those of the items before it.
   */
  function ItemRecord(answer: (string, string, nat) -> Option<string>, first: nat, elements: seq<string>, k: nat): Record
    requires k < |elements|
  {
    RecordOf(elements[k], Replies(answer, elements[k], first + |AllRequests(elements[..k])|))
  }

  /** The records the translation phase produces, one per item, in item order. */
  function ItemRecords(answer: (string, string, nat) -> Option<string>, first: nat, elements: seq<string>): (records: seq<Record>)
    ensures |records| == |elements|
  {
    if elements == [] then []
    else ItemRecords(answer, first, elements[..|elements| - 1]) + [ItemRecord(answer, first, elements, |elements| - 1)]
  }

  /** Record `k` is the translation of item `k`, made with the replies to that item's requests. */
  lemma {:induction false} ItemRecordAt(answer: (string, string, nat) -> Option<string>, first: nat, elements: seq<string>, k: nat)
    requires k < |elements|
    ensures ItemRecords(answer, first, elements)[k] == ItemRecord(answer, first, elements, k)
  {
    var n := |elements| - 1;
    if k < n {
      ItemRecordAt(answer, first, elements[..n], k);
      ItemRecordOfPrefix(answer, first, elements, n, k);
      assert ItemRecords(answer, first, elements)[k] == ItemRecords(answer, first, elements[..n])[k];
    }
  }

  /** The record of an item does not depend on the items after it. */
  lemma ItemRecordOfPrefix(answer: (string, string, nat) -> Option<string>, first: nat, elements: seq<string>, j: nat, k: nat)
    requires k < j <= |elements|
    ensures ItemRecord(answer, first, elements[..j], k) == ItemRecord(answer, first, elements, k)
  {
    assert elements[..j][k] == elements[k];
    assert elements[..j][..k] == elements[..k];
  }

  /** One more task awaited: the requests of the prefix grow by those of item `i`. */
  lemma RequestsStep(elements: seq<string>, i: nat)
    requires i < |elements|
    ensures AllRequests(elements[..i + 1]) == AllRequests(elements[..i]) + Requests(elements[i])
  {
    assert elements[..i + 1][..i] == elements[..i];
  }

  /** Records that agree with `ItemRecord` at every position are `ItemRecords`. */
  lemma ItemRecordsByPosition(answer: (string, string, nat) -> Option<string>, first: nat, elements: seq<string>, records: seq<Record>)
    requires |records| == |elements|
    requires forall k :: 0 <= k < |records| ==> records[k] == ItemRecord(answer, first, elements, k)
    ensures records == ItemRecords(answer, first, elements)
  {
    var r := ItemRecords(answer, first, elements);
    forall k | 0 <= k < |records|
      ensures records[k] == r[k]
    {
      ItemRecordAt(answer, first, elements, k);
    }
  }

  /**
   * The task list of `procesar_traducciones` awaited with `asyncio.gather`,
   * one task per item.
   */
  method GatherRecords(elements: seq<string>, translator: Translator) returns (records: seq<Record>)
    modifies translator
    ensures translator.calls == old(translator.calls) + AllRequests(elements)
    ensures records == ItemRecords(translator.answer, |old(translator.calls)|, elements)
  {
    ghost var first := |translator.calls|;
    records := [];
    var i := 0;
    while i < |elements|
      invariant 0 <= i <= |elements|
      invariant translator.calls == old(translator.calls) + AllRequests(elements[..i])
      invariant |records| == i
      invariant forall k :: 0 <= k < i ==> records[k] == ItemRecord(translator.answer, first, elements, k)
    {
      ghost var before := |translator.calls|;
      assert before == first + |AllRequests(elements[..i])|;
      var rec := TranslateItem(elements[i], translator);
      assert rec == ItemRecord(translator.answer, first, elements, i);
      RequestsStep(elements, i);
      records := records + [rec];
      i := i + 1;
    }
    assert elements[..i] == elements;
    ItemRecordsByPosition(translator.answer, first, elements, records);
  }

  /** The loop `for i, elem in enumerate(elements): resultados[elem] = traducciones_list[i]`. */
  method IndexByItem(elements: seq<string>, records: seq<Record>) returns (resultados: map<string, Record>)
    requires |records| == |elements|
    ensures resultados == ByItem(elements, records)
  {
    resultados := map[];
    var j := 0;
    while j < |elements|
      invariant 0 <= j <= |elements|
      invariant resultados == ByItem(elements[..j], records[..j])
    {
      resultados := resultados[elements[j] := records[j]];
      assert elements[..j + 1][..j] == elements[..j] && records[..j + 1][..j] == records[..j];
      j := j + 1;
    }
    assert elements[..j] == elements && records[..j] == records;
  }

  /**
   * What `procesar_traducciones` returns for item `e`: the record built from
   * the replies to the requests issued for the last occurrence of `e`.
   */
  lemma TranslatedItem(answer: (string, string, nat) -> Option<string>, first: nat, elements: seq<string>, e: string)
    requires e in elements
    ensures var m := ByItem(elements, ItemRecords(answer, first, elements));
      && e in m
      && m[e] == RecordOf(e, Replies(answer, e, first + |AllRequests(elements[..LastIndex(elements, e)])|))
  {
    ItemRecordAt(answer, first, elements, LastIndex(elements, e));
  }

  /** Every item of the list is a key of what `procesar_traducciones` returns, with a record total over `lang_codes`. */
  lemma TranslationsTotal(answer: (string, string, nat) -> Option<string>, first: nat, elements: seq<string>)
    ensures var m := ByItem(elements, ItemRecords(answer, first, elements));
      && m.Keys == (set e | e in elements)
      && forall e :: e in m ==> m[e].Keys == LangKeys
  {
    var m := ByItem(elements, ItemRecords(answer, first, elements));
    forall e | e in m
      ensures m[e].Keys == LangKeys
    {
      TranslatedItem(answer, first, elements, e);
    }
  }

  /** `procesar_traducciones(elements)`: every item is translated, then the records are keyed by item. */
  method TranslateAll(elements: seq<string>, translator: Translator) returns (resultados: map<string, Record>)
    modifies translator
    ensures translator.calls == old(translator.calls) + AllRequests(elements)
    ensures resultados == ByItem(elements, ItemRecords(translator.answer, |old(translator.calls)|, elements))
  {
    var records := GatherRecords(elements, translator);
    resultados := IndexByItem(elements, records);
  }
}
