/**
 * The JSON log `docs/memes.json`: a newest-first list of entries, one per headline whose memes
 * were saved, capped at fifty entries by every save.
 */
module MemeLog {
  import opened Wrappers
  import opened Sequences

  /** The largest number of entries a save leaves in the log. */
  const MAX_ENTRIES: nat := 50

  /** A news item as the news API returns it; `pubDate` is None when the key is absent. */
  datatype Headline = Headline(title: string, pubDate: Option<string>)

  /** One record of the log. */
  datatype Entry = Entry(title: string, date: string, generatedAt: string, memeFiles: seq<string>)

  /** The `date` a headline contributes: its `pubDate`, or the empty string when it has none. */
  function DateOf(item: Headline): string
  {
    match item.pubDate
    case Some(d) => d
    case None => ""
  }

  /** The record `save_memes` builds for `item`, stamped with the clock reading `generatedAt`. */
  function BuildEntry(item: Headline, memePaths: seq<string>, generatedAt: string): Entry
  {
    Entry(item.title, DateOf(item), generatedAt, memePaths)
  }

  /** The log after inserting `e` at the front and keeping the first MAX_ENTRIES entries. */
  function Prepend(e: Entry, log: seq<Entry>): (r: seq<Entry>)
    ensures 1 <= |r| <= MAX_ENTRIES
    ensures |r| == Min(|log| + 1, MAX_ENTRIES)
    ensures r[0] == e
    ensures r[1..] == log[..Min(|log|, MAX_ENTRIES - 1)]
  {
    var inserted := [e] + log;
    inserted[..Min(|inserted|, MAX_ENTRIES)]
  }

  /** The log after saving the entries `es` one after another, oldest first. */
  function PrependAll(log: seq<Entry>, es: seq<Entry>): (r: seq<Entry>)
  {
    if es == [] then log else Prepend(es[|es| - 1], PrependAll(log, es[..|es| - 1]))
  }

  /** Saving one more entry is one more Prepend. */
  lemma PrependAllStep(log: seq<Entry>, es: seq<Entry>, e: Entry)
    ensures PrependAll(log, es + [e]) == Prepend(e, PrependAll(log, es))
  {
    assert (es + [e])[..|es|] == es;
  }

  /**
   * What `load_json` yields after saving the entries `es` one after another into a file that
   * read as `start`: an unreadable file stays unreadable, and no save leaves it as it was.
   */
  function AfterSaves(start: Option<seq<Entry>>, es: seq<Entry>): Option<seq<Entry>>
  {
    if start.None? || es == [] then start else Some(PrependAll(start.value, es))
  }

  /** What `load_json` yields after one `save_memes` of `e` on a file that read as `loaded`. */
  function SaveOnce(loaded: Option<seq<Entry>>, e: Entry): Option<seq<Entry>>
  {
    match loaded
    case None => None
    case Some(log) => Some(Prepend(e, log))
  }

  /** One more save on top of a batch is one more SaveOnce on what the batch left. */
  lemma AfterSavesStep(start: Option<seq<Entry>>, es: seq<Entry>, e: Entry)
    ensures AfterSaves(start, es + [e]) == SaveOnce(AfterSaves(start, es), e)
  {
    PrependAllStep(start.GetOr([]), es, e);
  }

  /** Saving one batch and then another is saving the two as one batch. */
  lemma {:induction false} AfterSavesConcat(start: Option<seq<Entry>>, a: seq<Entry>, b: seq<Entry>)
    ensures AfterSaves(AfterSaves(start, a), b) == AfterSaves(start, a + b)
  {
    if b == [] {
      assert a + b == a;
    } else {
      var b0, e := b[..|b| - 1], b[|b| - 1];
      assert b == b0 + [e];
      assert a + b == (a + b0) + [e];
      AfterSavesConcat(start, a, b0);
      AfterSavesStep(AfterSaves(start, a), b0, e);
      AfterSavesStep(start, a + b0, e);
    }
  }

  /**
   * Saving a non-empty batch leaves the batch newest-first in front of the old log,
   * cut to MAX_ENTRIES entries.
   */
  lemma {:induction false} PrependAllNewestFirst(log: seq<Entry>, es: seq<Entry>)
    requires es != []
    ensures PrependAll(log, es) == (Reverse(es) + log)[..Min(|es| + |log|, MAX_ENTRIES)]
  {
    var init, e := es[..|es| - 1], es[|es| - 1];
    var x := Reverse(init) + log;
    assert Reverse(es) + log == [e] + x;
    var n := Min(|es| + |log|, MAX_ENTRIES);
    if init == [] {
      assert PrependAll(log, es) == Prepend(e, log);
    } else {
      PrependAllNewestFirst(log, init);
      var m := Min(|init| + |log|, MAX_ENTRIES);
      assert PrependAll(log, es) == Prepend(e, x[..m]);
      assert Prepend(e, x[..m]) == ([e] + x[..m])[..n];
      ConsTake(e, x, m, n);
    }
  }

  /** Cutting after a cons does not see past the cut of the tail. */
  lemma ConsTake<T>(e: T, x: seq<T>, m: nat, n: nat)
    requires m <= |x| && n <= m + 1
    ensures ([e] + x[..m])[..n] == ([e] + x)[..n]
  {
    assert forall i :: 0 <= i < n ==> ([e] + x[..m])[i] == ([e] + x)[i];
  }

  /** After a non-empty batch the log holds at most MAX_ENTRIES entries and the latest comes first. */
  lemma NewestAtFront(log: seq<Entry>, es: seq<Entry>)
    requires es != []
    ensures |PrependAll(log, es)| == Min(|es| + |log|, MAX_ENTRIES)
    ensures PrependAll(log, es)[0] == es[|es| - 1]
    ensures forall i :: 0 <= i < Min(|es|, MAX_ENTRIES) ==> PrependAll(log, es)[i] == es[|es| - 1 - i]
  {
    PrependAllNewestFirst(log, es);
  }

  /** Once MAX_ENTRIES or more entries have been saved, only the latest MAX_ENTRIES remain, newest first. */
  lemma OnlyLatestRemain(log: seq<Entry>, es: seq<Entry>)
    requires |es| >= MAX_ENTRIES
    ensures PrependAll(log, es) == Reverse(es)[..MAX_ENTRIES]
  {
    PrependAllNewestFirst(log, es);
    assert (Reverse(es) + log)[..MAX_ENTRIES] == Reverse(es)[..MAX_ENTRIES];
  }

  /** Saving A, B and C in that order into an empty log gives C, B, A. */
  lemma ThreeSaves(a: Entry, b: Entry, c: Entry)
    ensures PrependAll([], [a, b, c]) == [c, b, a]
  {
    PrependAllNewestFirst([], [a, b, c]);
    assert Reverse([a, b, c]) == [c, b, a] by {
      assert Reverse([a, b, c])[0] == c;
    }
  }

  /**
   * The log file. `present` is whether it exists; `unreadable` is whether, existing, it fails
   * to parse or has no `news` list; `news` is that list.
   */
  class LogStore {
    var present: bool
    var unreadable: bool
    var news: seq<Entry>

    constructor (present: bool, unreadable: bool, news: seq<Entry>)
      ensures this.present == present && this.unreadable == unreadable && this.news == news
    {
      this.present := present;
      this.unreadable := unreadable;
      this.news := news;
    }

    /** The news list `load_json` yields; None where it raises. A missing file reads as an empty log. */
    function LoadJson(): (r: Option<seq<Entry>>)
      reads this
      ensures !present ==> r == Some([])
      ensures r.None? <==> present && unreadable
      ensures present && !unreadable ==> r == Some(news)
    {
      if !present then Some([]) else if unreadable then None else Some(news)
    }

    /**
     * Loads the log, puts the entry for `item` at its front, keeps the first MAX_ENTRIES entries
     * and writes the log back; `now` is the clock reading the entry records. When the load
     * raises, the handler swallows it and the file is left as it was.
     */
    method SaveMemes(item: Headline, memePaths: seq<string>, now: string)
      modifies this
      ensures old(LoadJson()).None? ==> unchanged(this)
      ensures old(LoadJson()).Some? ==>
        && present && !unreadable
        && news == Prepend(BuildEntry(item, memePaths, now), old(LoadJson()).value)
        && LoadJson() == Some(news)
      ensures old(LoadJson()).Some? ==>
        && |news| <= MAX_ENTRIES
        && news[0] == Entry(item.title, DateOf(item), now, memePaths)
        && news[1..] == old(LoadJson()).value[..Min(|old(LoadJson()).value|, MAX_ENTRIES - 1)]
    {
      var data := LoadJson();
      if data.None? {
        return;
      }
      var entry := BuildEntry(item, memePaths, now);
      var updated := [entry] + data.value;
      updated := updated[..Min(|updated|, MAX_ENTRIES)];
      present, unreadable, news := true, false, updated;
    }
  }
}
