/**
 * The earlier script (the root `ExtratorDados.py`): with the date rolled
 * back from a weekend, it tries editions 27, 28, ... in turn, keeps every
 * page of each that mentions a call for applications, and stops at the
 * first edition whose fetch, parse or page extraction raises.
 *
 * The server is an input: `published[j]` is what fetching edition
 * `27 + j` gives, and every edition past the end of `published` is
 * answered with a 404.
 */
module Script {
  import opened Calendar
  import opened Locator
  import opened Scanner

  const FirstEdition := 27

  /** What fetching edition `FirstEdition + j` gives. */
  function FetchOf(published: seq<Fetch>, j: nat): Fetch {
    if j < |published| then published[j] else HttpError(404)
  }

  /** Some page of the document raises on extraction. */
  predicate Raises(pages: seq<PageText>) {
    exists k :: 0 <= k < |pages| && pages[k].ExtractionFails?
  }

  /** Edition `FirstEdition + j` is fetched and all its pages are read without an exception. */
  predicate Completes(published: seq<Fetch>, j: nat) {
    j < |published| && published[j].Document? && !Raises(published[j].pages)
  }

  /** The first edition index from `j` on whose processing raises: the last one the loop tries. */
  function StopIndex(published: seq<Fetch>, j: nat): (r: nat)
    requires j <= |published|
    ensures j <= r <= |published| && !Completes(published, r)
    ensures forall i :: j <= i < r ==> Completes(published, i)
    decreases |published| - j
  {
    if Completes(published, j) then StopIndex(published, j + 1) else j
  }

  /** The records the script collects from edition index `j` on. */
  function Collected(published: seq<Fetch>, date: string, j: nat): seq<Record>
    decreases |published| - j
  {
    if j >= |published| || !published[j].Document? then []
    else
      var s := AllMentions(published[j].pages, date, FirstEdition + j, 0);
      s.records + (if s.raised then [] else Collected(published, date, j + 1))
  }

  /**
   * One pass of the loop body: fetch edition `FirstEdition + j`, scan all
   * its pages, and tell whether the `except` branch ends the loop here.
   */
  method Attempt(published: seq<Fetch>, date: string, j: nat) returns (found: seq<Record>, stop: bool)
    ensures stop <==> !Completes(published, j)
    ensures Collected(published, date, j) == found + (if stop then [] else Collected(published, date, j + 1))
  {
    var fetch := FetchOf(published, j);
    if !fetch.Document? {
      return [], true;
    }
    var raised;
    found, raised := ScanAll(fetch.pages, date, FirstEdition + j);
    AllMentionsRaises(fetch.pages, date, FirstEdition + j, 0);
    stop := raised;
  }

  /** The pages of edition index `i`, when its fetch gives a document. */
  predicate Fetched(published: seq<Fetch>, i: int) {
    0 <= i < |published| && published[i].Document?
  }

  /** `r` is the record of a hit on page `r.page` of edition index `i`. */
  predicate HitOf(published: seq<Fetch>, date: string, i: int, r: Record) {
    Fetched(published, i)
    && var pages := published[i].pages;
    0 < r.page <= |pages| && Hit(pages, r.page - 1)
    && r == RecordAt(pages, date, FirstEdition + i, r.page - 1)
  }

  /** The records of one edition's scan are hits of that edition. */
  lemma EditionSound(published: seq<Fetch>, date: string, j: nat)
    requires Fetched(published, j)
    ensures forall r :: r in AllMentions(published[j].pages, date, FirstEdition + j, 0).records ==>
      r.edition == FirstEdition + j && HitOf(published, date, j, r)
  {
    AllMentionsSound(published[j].pages, date, FirstEdition + j, 0);
  }

  /**
   * Every record collected from edition index `j` on comes from an edition
   * the loop reaches, no later than the one that stops it, and is a hit on
   * its own page of that edition, carrying the run's date.
   */
  lemma {:induction false} CollectedSound(published: seq<Fetch>, date: string, j: nat)
    requires j <= |published|
    ensures forall r :: r in Collected(published, date, j) ==>
      FirstEdition + j <= r.edition <= FirstEdition + StopIndex(published, j)
      && HitOf(published, date, r.edition - FirstEdition, r)
    decreases |published| - j
  {
    if j < |published| && published[j].Document? {
      var s := AllMentions(published[j].pages, date, FirstEdition + j, 0);
      EditionSound(published, date, j);
      AllMentionsRaises(published[j].pages, date, FirstEdition + j, 0);
      if !s.raised {
        CollectedSound(published, date, j + 1);
      }
    }
  }

  /** A hit of edition index `i` that the loop reaches and whose page comes before any failure. */
  predicate Reached(published: seq<Fetch>, j: nat, i: int, k: int)
    requires j <= |published|
  {
    j <= i <= StopIndex(published, j) && Fetched(published, i)
    && 0 <= k < |published[i].pages| && Hit(published[i].pages, k)
    && (i < StopIndex(published, j) || NoFailureBetween(published[i].pages, 0, k))
  }

  /** The hits of one edition before its first failing page are all in its scan. */
  lemma EditionComplete(published: seq<Fetch>, date: string, j: nat)
    requires Fetched(published, j)
    ensures var pages := published[j].pages;
      forall k :: 0 <= k < |pages| && Hit(pages, k) && NoFailureBetween(pages, 0, k) ==>
        RecordAt(pages, date, FirstEdition + j, k) in AllMentions(pages, date, FirstEdition + j, 0).records
  {
    AllMentionsComplete(published[j].pages, date, FirstEdition + j, 0);
  }

  /** One reached hit is collected, by induction on the editions before it. */
  lemma {:induction false} CollectedHas(published: seq<Fetch>, date: string, j: nat, i: int, k: int)
    requires j <= |published| && Reached(published, j, i, k)
    ensures RecordAt(published[i].pages, date, FirstEdition + i, k) in Collected(published, date, j)
    decreases |published| - j
  {
    var pages := published[j].pages;
    AllMentionsRaises(pages, date, FirstEdition + j, 0);
    if i == j {
      EditionComplete(published, date, j);
      assert NoFailureBetween(pages, 0, k);
    } else {
      assert Reached(published, j + 1, i, k);
      CollectedHas(published, date, j + 1, i, k);
    }
  }

  /**
   * Nothing is missed: every hit of an edition the loop finishes is
   * collected, and so is every hit of the stopping edition that comes
   * before its first failing page.
   */
  lemma CollectedComplete(published: seq<Fetch>, date: string, j: nat)
    requires j <= |published|
    ensures forall i, k :: Reached(published, j, i, k) ==>
      RecordAt(published[i].pages, date, FirstEdition + i, k) in Collected(published, date, j)
  {
    forall i, k | Reached(published, j, i, k)
      ensures RecordAt(published[i].pages, date, FirstEdition + i, k) in Collected(published, date, j)
    {
      CollectedHas(published, date, j, i, k);
    }
  }

  /** `x` comes before `y`: an earlier edition, or an earlier page of the same one. */
  predicate Before(x: Record, y: Record) {
    x.edition < y.edition || (x.edition == y.edition && x.page < y.page)
  }

  predicate Chronological(rs: seq<Record>) {
    forall a, b :: 0 <= a < b < |rs| ==> Before(rs[a], rs[b])
  }

  /** The records come out in edition order, and by page within an edition. */
  lemma {:induction false} CollectedOrdered(published: seq<Fetch>, date: string, j: nat)
    requires j <= |published|
    ensures Chronological(Collected(published, date, j))
    decreases |published| - j
  {
    if j < |published| && published[j].Document? {
      var pages := published[j].pages;
      var s := AllMentions(pages, date, FirstEdition + j, 0);
      var rest := if s.raised then [] else Collected(published, date, j + 1);
      AllMentionsSound(pages, date, FirstEdition + j, 0);
      AllMentionsOrdered(pages, date, FirstEdition + j, 0);
      if !s.raised {
        CollectedSound(published, date, j + 1);
        CollectedOrdered(published, date, j + 1);
      }
      JoinChronological(s.records, rest, FirstEdition + j);
    }
  }

  /** Records of one edition in page order, followed by later editions in order, stay in order. */
  lemma JoinChronological(xs: seq<Record>, ys: seq<Record>, edition: nat)
    requires forall r :: r in xs ==> r.edition == edition
    requires IncreasingPages(xs) && Chronological(ys)
    requires forall r :: r in ys ==> r.edition > edition
    ensures Chronological(xs + ys)
  {
    var rs := xs + ys;
    forall a, b | 0 <= a < b < |rs| ensures Before(rs[a], rs[b]) {
      if b < |xs| {
        assert rs[a] == xs[a] && rs[b] == xs[b];
      } else if a < |xs| {
        assert rs[a] == xs[a] && rs[a] in xs;
        assert rs[b] == ys[b - |xs|] && rs[b] in ys;
      } else {
        assert rs[a] == ys[a - |xs|] && rs[b] == ys[b - |xs|];
      }
    }
  }

  /** `f` applied to the first `k` editions tried, in order. */
  function PerEdition<T>(f: nat -> T, k: nat): (xs: seq<T>)
    ensures |xs| == k
  {
    if k == 0 then [] else PerEdition(f, k - 1) + [f(FirstEdition + k - 1)]
  }

  lemma {:induction false} PerEditionAt<T>(f: nat -> T, k: nat)
    ensures forall j :: 0 <= j < k ==> PerEdition(f, k)[j] == f(FirstEdition + j)
  {
    if k > 0 {
      PerEditionAt(f, k - 1);
      assert forall j :: 0 <= j < k - 1 ==> PerEdition(f, k)[j] == PerEdition(f, k - 1)[j];
    }
  }

  /**
   * The module-level `while True` loop: try editions from `FirstEdition` on,
   * each with the link `linkOf` gives it, until one raises.
   */
  method TryEditions(published: seq<Fetch>, date: string, linkOf: nat -> string)
    returns (links: seq<string>, records: seq<Record>)
    ensures |links| == StopIndex(published, 0) + 1
    ensures forall j :: 0 <= j < |links| ==> links[j] == linkOf(FirstEdition + j)
    ensures records == Collected(published, date, 0)
  {
    ghost var stop := StopIndex(published, 0);
    ghost var total := Collected(published, date, 0);
    var j := 0;
    links, records := [], [];
    while true
      invariant j <= stop
      invariant links == PerEdition(linkOf, j)
      invariant total == records + Collected(published, date, j)
      decreases |published| - j
    {
      links := links + [linkOf(FirstEdition + j)];
      var found, failed := Attempt(published, date, j);
      ghost var rest := if failed then [] else Collected(published, date, j + 1);
      assert records + (found + rest) == (records + found) + rest;
      records := records + found;
      j := j + 1;
      assert links == PerEdition(linkOf, j);
      if failed {
        break;
      }
    }
    PerEditionAt(linkOf, j);
  }

  /**
   * The whole script: the weekend adjustment, then the loop. Pass `j`
   * fetches edition `FirstEdition + j` by its hand-built link for the
   * adjusted date, there is one pass per edition up to the one that
   * raises, and the records are those collected for that date.
   */
  method RunScript(today: Date, published: seq<Fetch>) returns (links: seq<string>, records: seq<Record>)
    requires Valid(today)
    ensures var day := AdjustWeekend(today);
      |links| == StopIndex(published, 0) + 1
      && (forall j :: 0 <= j < |links| ==> links[j] == ScriptLink(day, FirstEdition + j))
      && records == Collected(published, FormatDate(day), 0)
  {
    var day := AdjustWeekend(today);
    links, records := TryEditions(published, FormatDate(day), (e: nat) => ScriptLink(day, e));
  }
}
