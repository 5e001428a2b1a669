/**
 * The page scanner of both programs. A page's text either comes out of
 * the PDF reader (possibly `None` or empty) or the extraction raises; a
 * page mentions a call for applications when its lowered text contains
 * "edital de chamamento", and the excerpt kept is the thousand characters
 * from the first "edital" on. The cloud version stops at the first
 * mentioning page (`ScanFirst`); the earlier script keeps every one
 * (`ScanAll`). Either scan ends where a page's extraction raises.
 */
module Scanner {
  import opened Wrappers
  import opened Strings

  const Phrase := "edital de chamamento"
  const Anchor := "edital"
  const Window := 1000

  datatype PageText = Extracted(text: Option<string>) | ExtractionFails

  /**
   * Fetching an edition's PDF and opening it: an HTTP error with its
   * status code, another failure (network, or a file the PDF reader
   * rejects), or the document's pages.
   */
  datatype Fetch = HttpError(code: int) | Unreadable | Document(pages: seq<PageText>)

  /** The dictionary `{'data', 'edicao', 'pagina', 'texto'}` of one hit. */
  datatype Record = Record(date: string, edition: nat, page: nat, text: string)

  /** What a scan leaves behind: the records appended, and whether it ended by raising. */
  datatype Scan = Scan(records: seq<Record>, raised: bool)

  /** `texto_pagina and "edital de chamamento" in texto_pagina.lower()`. */
  predicate Mentions(t: Option<string>) {
    t.Some? && t.value != "" && Contains(Lower(t.value), Phrase)
  }

  /** The phrase begins with the anchor, so each occurrence of it is one of the anchor. */
  lemma PhraseHasAnchor(s: string, i: int)
    requires OccursAt(s, Phrase, i)
    ensures OccursAt(s, Anchor, i)
  {
    assert Phrase[..|Anchor|] == Anchor;
    assert s[i..i + |Anchor|] == s[i..i + |Phrase|][..|Anchor|];
  }

  /** `texto_pagina.lower().find("edital")`, taken on a text that mentions the phrase. */
  function ExcerptStart(t: string): nat {
    var p := Find(Lower(t), Anchor);
    if p >= 0 then p else 0
  }

  /** On a mentioning text, the start is the first "edital", never after the phrase. */
  lemma ExcerptStartMeaning(t: string)
    requires Contains(Lower(t), Phrase)
    ensures var pos := ExcerptStart(t);
      OccursAt(Lower(t), Anchor, pos)
      && (forall j :: 0 <= j < pos ==> !OccursAt(Lower(t), Anchor, j))
      && pos <= Find(Lower(t), Phrase)
  {
    PhraseHasAnchor(Lower(t), Find(Lower(t), Phrase));
  }

  /** `texto_pagina[pos:pos + 1000]`, with `pos` the first "edital" of the lowered text. */
  function Excerpt(t: string): string
    requires Contains(Lower(t), Phrase)
  {
    var pos := ExcerptStart(t);
    Slice(t, pos, pos + Window)
  }

  /**
   * The excerpt is the text from the first "edital" on, cut at a thousand
   * characters or at the end of the page, and it lower-cases to a string
   * that starts with "edital".
   */
  lemma ExcerptMeaning(t: string)
    requires Contains(Lower(t), Phrase)
    ensures var pos, e := ExcerptStart(t), Excerpt(t);
      pos + |e| <= |t| && e == t[pos..pos + |e|]
      && |e| == Min(Window, |t| - pos)
      && |Anchor| <= |e| <= Window
      && Lower(e)[..|Anchor|] == Anchor
  {
    var pos := ExcerptStart(t);
    ExcerptStartMeaning(t);
    var e := Excerpt(t);
    LowerSlice(t, pos, Min(pos + Window, |t|));
    assert Lower(e)[..|Anchor|] == Lower(t)[pos..pos + |Anchor|];
  }

  /** Page `k` (counted from 0) is extracted and mentions the phrase. */
  predicate Hit(pages: seq<PageText>, k: int)
    requires 0 <= k < |pages|
  {
    pages[k].Extracted? && Mentions(pages[k].text)
  }

  /** The record page `k` gives: pages are numbered from 1, as `enumerate(..., start=1)` does. */
  function RecordAt(pages: seq<PageText>, date: string, edition: nat, k: int): Record
    requires 0 <= k < |pages| && Hit(pages, k)
  {
    Record(date, edition, k + 1, Excerpt(pages[k].text.value))
  }

  /** The cloud version's scan from page `from` on: the first hit ends it. */
  function FirstMention(pages: seq<PageText>, date: string, edition: nat, from: nat): Scan
    decreases |pages| - from
  {
    if from >= |pages| then Scan([], false)
    else if pages[from].ExtractionFails? then Scan([], true)
    else if Mentions(pages[from].text) then Scan([RecordAt(pages, date, edition, from)], false)
    else FirstMention(pages, date, edition, from + 1)
  }

  /** The earlier script's scan from page `from` on: every hit is kept. */
  function AllMentions(pages: seq<PageText>, date: string, edition: nat, from: nat): Scan
    decreases |pages| - from
  {
    if from >= |pages| then Scan([], false)
    else if pages[from].ExtractionFails? then Scan([], true)
    else
      var rest := AllMentions(pages, date, edition, from + 1);
      if Mentions(pages[from].text) then Scan([RecordAt(pages, date, edition, from)] + rest.records, rest.raised)
      else rest
  }

  /** The page loop of the cloud version, which leaves with `break` at the first hit. */
  method ScanFirst(pages: seq<PageText>, date: string, edition: nat) returns (records: seq<Record>, found: bool, raised: bool)
    ensures Scan(records, raised) == FirstMention(pages, date, edition, 0)
    ensures found <==> records != []
  {
    records := [];
    found := false;
    raised := false;
    var i := 0;
    while i < |pages|
      invariant 0 <= i <= |pages|
      invariant records == [] && !found && !raised
      invariant FirstMention(pages, date, edition, 0) == FirstMention(pages, date, edition, i)
    {
      match pages[i] {
        case ExtractionFails =>
          raised := true;
          break;
        case Extracted(t) =>
          if Mentions(t) {
            records := records + [RecordAt(pages, date, edition, i)];
            found := true;
            break;
          }
      }
      i := i + 1;
    }
  }

  /** The page loop of the earlier script, which appends every hit. */
  method ScanAll(pages: seq<PageText>, date: string, edition: nat) returns (records: seq<Record>, raised: bool)
    ensures Scan(records, raised) == AllMentions(pages, date, edition, 0)
  {
    records := [];
    raised := false;
    var i := 0;
    ghost var total := AllMentions(pages, date, edition, 0);
    while i < |pages|
      invariant 0 <= i <= |pages|
      invariant !raised
      invariant total.records == records + AllMentions(pages, date, edition, i).records
      invariant total.raised == AllMentions(pages, date, edition, i).raised
    {
      if pages[i].ExtractionFails? {
        raised := true;
        break;
      }
      ghost var next := AllMentions(pages, date, edition, i + 1).records;
      if Mentions(pages[i].text) {
        var r := RecordAt(pages, date, edition, i);
        assert records + ([r] + next) == (records + [r]) + next;
        records := records + [r];
      }
      i := i + 1;
    }
  }

  /** No page from `from` up to (not including) `k` raises or mentions the phrase. */
  predicate QuietBetween(pages: seq<PageText>, from: nat, k: int) {
    forall j :: from <= j < k && j < |pages| ==> pages[j].Extracted? && !Mentions(pages[j].text)
  }

  /**
   * The cloud version's scan keeps at most one record: that of the first
   * page mentioning the phrase, all pages before it being quiet.
   */
  lemma {:induction false} FirstMentionHit(pages: seq<PageText>, date: string, edition: nat, from: nat)
    ensures var s := FirstMention(pages, date, edition, from);
      |s.records| <= 1
      && (s.records != [] ==>
            (!s.raised
             && from < s.records[0].page <= |pages| && Hit(pages, s.records[0].page - 1)
             && s.records[0] == RecordAt(pages, date, edition, s.records[0].page - 1)
             && QuietBetween(pages, from, s.records[0].page - 1)))
    decreases |pages| - from
  {
    if from < |pages| && pages[from].Extracted? && !Mentions(pages[from].text) {
      FirstMentionHit(pages, date, edition, from + 1);
    }
  }

  /** The cloud version's scan raises exactly when a page fails before any hit. */
  lemma {:induction false} FirstMentionRaises(pages: seq<PageText>, date: string, edition: nat, from: nat)
    ensures FirstMention(pages, date, edition, from).raised
      <==> exists k :: from <= k < |pages| && pages[k].ExtractionFails? && QuietBetween(pages, from, k)
    decreases |pages| - from
  {
    if from < |pages| {
      if pages[from].ExtractionFails? {
        assert QuietBetween(pages, from, from);
      } else if Mentions(pages[from].text) {
        assert forall k :: from <= k < |pages| && QuietBetween(pages, from, k) ==> k == from;
      } else {
        FirstMentionRaises(pages, date, edition, from + 1);
        assert forall k :: QuietBetween(pages, from + 1, k) ==> QuietBetween(pages, from, k);
        assert forall k :: from + 1 <= k && QuietBetween(pages, from, k) ==> QuietBetween(pages, from + 1, k);
      }
    }
  }

  /** The cloud version's scan neither finds nor raises exactly when every page is quiet. */
  lemma {:induction false} FirstMentionNone(pages: seq<PageText>, date: string, edition: nat, from: nat)
    ensures var s := FirstMention(pages, date, edition, from);
      s.records == [] && !s.raised <==> QuietBetween(pages, from, |pages|)
    decreases |pages| - from
  {
    if from < |pages| {
      if pages[from].ExtractionFails? || Mentions(pages[from].text) {
        assert !QuietBetween(pages, from, |pages|);
      } else {
        FirstMentionNone(pages, date, edition, from + 1);
        assert QuietBetween(pages, from + 1, |pages|) ==> QuietBetween(pages, from, |pages|);
      }
    }
  }

  /** Every record of the script's scan is a hit on its own page, with this edition's date. */
  lemma {:induction false} AllMentionsSound(pages: seq<PageText>, date: string, edition: nat, from: nat)
    ensures forall r :: r in AllMentions(pages, date, edition, from).records ==>
      from < r.page <= |pages| && Hit(pages, r.page - 1) && r == RecordAt(pages, date, edition, r.page - 1)
    decreases |pages| - from
  {
    if from < |pages| && !pages[from].ExtractionFails? {
      AllMentionsSound(pages, date, edition, from + 1);
    }
  }

  /** The script's scan misses no hit that comes before the first failing page. */
  lemma {:induction false} AllMentionsComplete(pages: seq<PageText>, date: string, edition: nat, from: nat)
    ensures forall k :: from <= k < |pages| && Hit(pages, k) && NoFailureBetween(pages, from, k) ==>
      RecordAt(pages, date, edition, k) in AllMentions(pages, date, edition, from).records
    decreases |pages| - from
  {
    if from < |pages| && !pages[from].ExtractionFails? {
      AllMentionsComplete(pages, date, edition, from + 1);
      forall k | from <= k < |pages| && Hit(pages, k) && NoFailureBetween(pages, from, k)
        ensures RecordAt(pages, date, edition, k) in AllMentions(pages, date, edition, from).records
      {
        if k > from {
          assert NoFailureBetween(pages, from + 1, k);
        }
      }
    }
  }

  /** No page from `from` up to (not including) `k` raises. */
  predicate NoFailureBetween(pages: seq<PageText>, from: nat, k: int) {
    forall j :: from <= j < k && j < |pages| ==> pages[j].Extracted?
  }

  /** The script's scan raises exactly when some page from `from` on fails. */
  lemma {:induction false} AllMentionsRaises(pages: seq<PageText>, date: string, edition: nat, from: nat)
    ensures AllMentions(pages, date, edition, from).raised
      <==> exists k :: from <= k < |pages| && pages[k].ExtractionFails?
    decreases |pages| - from
  {
    if from < |pages| && !pages[from].ExtractionFails? {
      AllMentionsRaises(pages, date, edition, from + 1);
      assert (exists k :: from <= k < |pages| && pages[k].ExtractionFails?)
        <==> (exists k :: from + 1 <= k < |pages| && pages[k].ExtractionFails?);
    }
  }

  /** Strictly increasing page numbers. */
  predicate IncreasingPages(rs: seq<Record>) {
    forall a, b :: 0 <= a < b < |rs| ==> rs[a].page < rs[b].page
  }

  /** The script's records come in strictly increasing page order. */
  lemma {:induction false} AllMentionsOrdered(pages: seq<PageText>, date: string, edition: nat, from: nat)
    ensures IncreasingPages(AllMentions(pages, date, edition, from).records)
    decreases |pages| - from
  {
    if from < |pages| && !pages[from].ExtractionFails? {
      AllMentionsOrdered(pages, date, edition, from + 1);
      AllMentionsPagesAfter(pages, date, edition, from + 1);
      var rest := AllMentions(pages, date, edition, from + 1).records;
      if Mentions(pages[from].text) {
        var rs := [RecordAt(pages, date, edition, from)] + rest;
        forall a, b | 0 <= a < b < |rs| ensures rs[a].page < rs[b].page {
          assert rs[b] == rest[b - 1] && rest[b - 1] in rest;
          if a > 0 {
            assert rs[a] == rest[a - 1];
          }
        }
        assert IncreasingPages(rs);
      }
    }
  }

  /** The script's records from page `from` on carry page numbers above `from`. */
  lemma {:induction false} AllMentionsPagesAfter(pages: seq<PageText>, date: string, edition: nat, from: nat)
    ensures forall r :: r in AllMentions(pages, date, edition, from).records ==> r.page > from
    decreases |pages| - from
  {
    if from < |pages| && !pages[from].ExtractionFails? {
      AllMentionsPagesAfter(pages, date, edition, from + 1);
    }
  }

  /**
   * Between the two versions: the cloud scan keeps the first record of
   * the script's scan, and raises exactly when the script's scan raises
   * before finding anything.
   */
  lemma {:induction false} FirstIsHeadOfAll(pages: seq<PageText>, date: string, edition: nat, from: nat)
    ensures var all := AllMentions(pages, date, edition, from);
      FirstMention(pages, date, edition, from)
        == Scan(if all.records == [] then [] else [all.records[0]], all.raised && all.records == [])
    decreases |pages| - from
  {
    if from < |pages| && !pages[from].ExtractionFails? && !Mentions(pages[from].text) {
      FirstIsHeadOfAll(pages, date, edition, from + 1);
    }
  }
}
