/**
 * `fetch_news` and `main`: fetch at most five headlines, generate memes for each, and save a log
 * entry for every headline whose memes came back; a failed or empty fetch ends the run.
 */
module Pipeline {
  import opened Wrappers
  import opened Sequences
  import opened MemeLog
  import opened MemeGenerator

  /** The most headlines one run processes. */
  const MAX_HEADLINES: nat := 5

  /**
   * `fetch_news`: the first MAX_HEADLINES results of the news API. `response` is None when the
   * request, the JSON decoding or the lookup of `results` raises, which yields None.
   */
  function FetchNews(response: Option<seq<Headline>>): (r: Option<seq<Headline>>)
    ensures r.None? <==> response.None?
    ensures r.Some? ==>
      && |r.value| == Min(|response.value|, MAX_HEADLINES)
      && r.value == response.value[..|r.value|]
  {
    match response
    case None => None
    case Some(results) => Some(results[..Min(|results|, MAX_HEADLINES)])
  }

  /** The headlines the loop of `main` visits: none when the fetch gave None or an empty list. */
  function Processed(response: Option<seq<Headline>>): (items: seq<Headline>)
    ensures |items| <= MAX_HEADLINES
    ensures items == [] <== response.None? || response.value == []
    ensures response.Some? ==> items == FetchNews(response).value
  {
    match FetchNews(response)
    case None => []
    case Some(items) => items
  }

  /**
   * What the outside world does during one headline's turn: the meme API's answer and the
   * downloads (see GenerateMemes), and the clock reading the saved entry records.
   */
  datatype Round = Round(memes: Option<seq<Download>>, savedAt: string)

  /**
   * Whether `main` saves an entry for the turn: the meme API answered, no download raised and
   * at least one download came back with status 200.
   */
  predicate Qualifies(round: Round)
  {
    && round.memes.Some?
    && !Aborts(round.memes.value)
    && exists i :: 0 <= i < |round.memes.value| && IsSaved(round.memes.value[i])
  }

  /** A turn qualifies exactly when `generate_memes` returns a non-empty list for it. */
  lemma QualifiesIffMemes(round: Round)
    ensures Qualifies(round) <==> Generated(round.memes) != []
  {
    if round.memes.Some? {
      var ds := round.memes.value;
      NamesAtPositions(ds);
      PositionsExact(ds, IsSaved);
      if Qualifies(round) {
        var i :| 0 <= i < |ds| && IsSaved(ds[i]);
        assert i in Positions(ds, IsSaved);
      } else if !Aborts(ds) {
        PositionsNone(ds, IsSaved);
      }
    }
  }

  /** The entries one turn of the loop of `main` saves: that of `item` when the turn qualifies. */
  function Turn(item: Headline, round: Round): seq<Entry>
  {
    if Qualifies(round) then [BuildEntry(item, Generated(round.memes), round.savedAt)] else []
  }

  /** The entries the loop of `main` has saved after visiting the first `n` headlines, in order. */
  function EntriesUpTo(items: seq<Headline>, rounds: seq<Round>, n: nat): seq<Entry>
    requires n <= |items| == |rounds|
  {
    if n == 0 then [] else EntriesUpTo(items, rounds, n - 1) + Turn(items[n - 1], rounds[n - 1])
  }

  /** The entries `main` saves, in the order it saves them. */
  function Entries(items: seq<Headline>, rounds: seq<Round>): seq<Entry>
    requires |items| == |rounds|
  {
    EntriesUpTo(items, rounds, |items|)
  }

  lemma {:induction false} EntriesUpToPositions(items: seq<Headline>, rounds: seq<Round>, n: nat)
    requires n <= |items| == |rounds|
    ensures |EntriesUpTo(items, rounds, n)| == |Positions(rounds[..n], Qualifies)|
    ensures forall j :: 0 <= j < |EntriesUpTo(items, rounds, n)| ==>
      var k := Positions(rounds[..n], Qualifies)[j];
      k < n && EntriesUpTo(items, rounds, n)[j] == BuildEntry(items[k], Generated(rounds[k].memes), rounds[k].savedAt)
  {
    if n > 0 {
      EntriesUpToPositions(items, rounds, n - 1);
      var p0, e0 := Positions(rounds[..n - 1], Qualifies), EntriesUpTo(items, rounds, n - 1);
      var p, e := Positions(rounds[..n], Qualifies), EntriesUpTo(items, rounds, n);
      assert rounds[..n][..n - 1] == rounds[..n - 1];
      assert p == p0 + (if Qualifies(rounds[n - 1]) then [n - 1] else []);
      forall j | 0 <= j < |e|
        ensures p[j] < n && e[j] == BuildEntry(items[p[j]], Generated(rounds[p[j]].memes), rounds[p[j]].savedAt)
      {
        if j < |e0| {
          assert e[j] == e0[j] && p[j] == p0[j];
        }
      }
    }
  }

  /**
   * One entry per qualifying headline and none for the others: the `j`-th saved entry belongs
   * to the `j`-th qualifying headline, carrying its title, date, meme list and save time.
   */
  lemma EntriesPerQualifyingHeadline(items: seq<Headline>, rounds: seq<Round>)
    requires |items| == |rounds|
    ensures |Entries(items, rounds)| == |Positions(rounds, Qualifies)|
    ensures forall j :: 0 <= j < |Entries(items, rounds)| ==>
      var k := Positions(rounds, Qualifies)[j];
      k < |items| && Entries(items, rounds)[j] == BuildEntry(items[k], Generated(rounds[k].memes), rounds[k].savedAt)
  {
    EntriesUpToPositions(items, rounds, |items|);
    assert rounds[..|items|] == rounds;
  }

  /** A run saves at most one entry per fetched headline, so at most MAX_HEADLINES entries. */
  lemma AtMostFiveEntries(response: Option<seq<Headline>>, rounds: seq<Round>)
    requires |rounds| == |Processed(response)|
    ensures |Entries(Processed(response), rounds)| <= |Processed(response)| <= MAX_HEADLINES
  {
    EntriesPerQualifyingHeadline(Processed(response), rounds);
    PositionsExact(rounds, Qualifies);
  }

  /**
   * The log a run leaves when the file reads as `log` and some headline qualifies: at most
   * MAX_ENTRIES entries, and at its front the entry of the last qualifying headline.
   */
  lemma LastQualifyingFirst(log: seq<Entry>, items: seq<Headline>, rounds: seq<Round>)
    requires |items| == |rounds|
    requires Entries(items, rounds) != []
    ensures var after, p := PrependAll(log, Entries(items, rounds)), Positions(rounds, Qualifies);
      && |after| <= MAX_ENTRIES
      && |p| > 0
      && var k := p[|p| - 1];
      && k < |items|
      && after[0] == BuildEntry(items[k], Generated(rounds[k].memes), rounds[k].savedAt)
  {
    EntriesPerQualifyingHeadline(items, rounds);
    NewestAtFront(log, Entries(items, rounds));
  }

  /**
   * One turn of the loop of `main`: generate the memes for `item` and, when the list is not
   * empty, save its entry.
   */
  method ProcessHeadline(store: LogStore, item: Headline, round: Round)
    modifies store
    ensures Turn(item, round) == [] || old(store.LoadJson()).None? ==> unchanged(store)
    ensures store.LoadJson() == AfterSaves(old(store.LoadJson()), Turn(item, round))
  {
    QualifiesIffMemes(round);
    var memePaths := GenerateMemes(round.memes);
    if memePaths == [] {
      return;
    }
    ghost var e := BuildEntry(item, memePaths, round.savedAt);
    AfterSavesStep(store.LoadJson(), [], e);
    assert [] + [e] == [e];
    store.SaveMemes(item, memePaths, round.savedAt);
  }

  /**
   * The loop of `main` over the fetched headlines `items`; `rounds` gives, per headline, what
   * generating and saving meet.
   */
  method ProcessHeadlines(store: LogStore, items: seq<Headline>, rounds: seq<Round>)
    requires |items| == |rounds|
    modifies store
    ensures Entries(items, rounds) == [] ==> unchanged(store)
    ensures store.LoadJson() == AfterSaves(old(store.LoadJson()), Entries(items, rounds))
  {
    ghost var start := store.LoadJson();
    var k := 0;
    while k < |items|
      invariant 0 <= k <= |items|
      invariant EntriesUpTo(items, rounds, k) == [] ==> unchanged(store)
      invariant store.LoadJson() == AfterSaves(start, EntriesUpTo(items, rounds, k))
    {
      AfterSavesConcat(start, EntriesUpTo(items, rounds, k), Turn(items[k], rounds[k]));
      ProcessHeadline(store, items[k], rounds[k]);
      k := k + 1;
    }
  }

  /**
   * `main`: fetch the headlines, stop when there are none, otherwise run the loop over them.
   * The final `view_memes` only prints and is not part of this model.
   */
  method Run(store: LogStore, response: Option<seq<Headline>>, rounds: seq<Round>)
    requires |rounds| == |Processed(response)|
    modifies store
    ensures response.None? || response.value == [] ==> unchanged(store)
    ensures Entries(Processed(response), rounds) == [] ==> unchanged(store)
    ensures store.LoadJson() == AfterSaves(old(store.LoadJson()), Entries(Processed(response), rounds))
  {
    var newsItems := FetchNews(response);
    if newsItems.None? || newsItems.value == [] {
      assert Entries(Processed(response), rounds) == [];
      return;
    }
    ProcessHeadlines(store, newsItems.value, rounds);
  }
}
