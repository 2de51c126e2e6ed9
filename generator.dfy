/**
 * `generate_memes`: ask the meme API for image URLs for a headline, download each one and keep
 * the downloads answered with status 200 under names `meme_<timestamp>_<i>.jpg`.
 */
module MemeGenerator {
  import opened Wrappers
  import opened Sequences

  /** The status code a download must have for its image to be saved. */
  const HTTP_OK: int := 200

  /** The length of a `%Y%m%d_%H%M%S` clock reading for a four-digit year. */
  const STAMP_WIDTH: nat := 15

  /**
   * What one iteration of the download loop meets: either an exception (the GET or the write
   * of the image raised), or a response with its status code and the clock reading the loop
   * takes when it saves the image.
   */
  datatype Download = Raised | Response(status: int, now: string)

  function DigitChar(d: nat): char
    requires d < 10
  {
    ('0' as int + d) as char
  }

  function DigitValue(c: char): nat
  {
    if '0' <= c <= '9' then c as int - '0' as int else 0
  }

  /** The decimal numeral of `n`, as Python's string formatting writes it. */
  function Decimal(n: nat): (s: string)
    ensures |s| >= 1
    ensures forall i :: 0 <= i < |s| ==> '0' <= s[i] <= '9'
  {
    if n < 10 then [DigitChar(n)] else Decimal(n / 10) + [DigitChar(n % 10)]
  }

  /** The number a string of decimal digits denotes. */
  function ParseDecimal(s: string): nat
  {
    if s == [] then 0 else ParseDecimal(s[..|s| - 1]) * 10 + DigitValue(s[|s| - 1])
  }

  lemma {:induction false} DecimalRoundTrip(n: nat)
    ensures ParseDecimal(Decimal(n)) == n
  {
    var s := Decimal(n);
    if n < 10 {
      assert s[..0] == [];
    } else {
      assert s[..|s| - 1] == Decimal(n / 10);
      DecimalRoundTrip(n / 10);
    }
  }

  /** The file name of the `i`-th meme (1-based) saved at clock reading `stamp`. */
  function MemeName(stamp: string, i: nat): string
  {
    "meme_" + stamp + "_" + Decimal(i) + ".jpg"
  }

  /** Names built from clock readings of one width determine both the reading and the index. */
  lemma MemeNameInjective(s1: string, i1: nat, s2: string, i2: nat)
    requires |s1| == |s2|
    requires MemeName(s1, i1) == MemeName(s2, i2)
    ensures s1 == s2 && i1 == i2
  {
    var n := MemeName(s1, i1);
    var w := |s1|;
    assert n[5..5 + w] == s1;
    assert MemeName(s2, i2)[5..5 + w] == s2;
    assert n[6 + w..|n| - 4] == Decimal(i1);
    assert MemeName(s2, i2)[6 + w..|n| - 4] == Decimal(i2);
    DecimalRoundTrip(i1);
    DecimalRoundTrip(i2);
  }

  /** Whether the loop saves the image of this download. */
  predicate IsSaved(d: Download)
  {
    d.Response? && d.status == HTTP_OK
  }

  /** Whether some iteration raises, which sends the whole call to its exception handler. */
  predicate Aborts(ds: seq<Download>)
  {
    exists i :: 0 <= i < |ds| && ds[i].Raised?
  }

  /** The names the loop has collected after the first `n` downloads of `ds`, when nothing raised. */
  function NamesUpTo(ds: seq<Download>, n: nat): seq<string>
    requires n <= |ds|
  {
    if n == 0 then []
    else NamesUpTo(ds, n - 1) + (if IsSaved(ds[n - 1]) then [MemeName(ds[n - 1].now, n)] else [])
  }

  /** The names the loop collects over `ds` when nothing raises. */
  function Names(ds: seq<Download>): seq<string>
  {
    NamesUpTo(ds, |ds|)
  }

  lemma {:induction false} NamesUpToPositions(ds: seq<Download>, n: nat)
    requires n <= |ds|
    ensures |NamesUpTo(ds, n)| == |Positions(ds[..n], IsSaved)|
    ensures forall j :: 0 <= j < |NamesUpTo(ds, n)| ==>
      var i := Positions(ds[..n], IsSaved)[j];
      i < n && IsSaved(ds[i]) && NamesUpTo(ds, n)[j] == MemeName(ds[i].now, i + 1)
  {
    if n > 0 {
      NamesUpToPositions(ds, n - 1);
      var p0, n0 := Positions(ds[..n - 1], IsSaved), NamesUpTo(ds, n - 1);
      var p, r := Positions(ds[..n], IsSaved), NamesUpTo(ds, n);
      assert ds[..n][..n - 1] == ds[..n - 1];
      assert p == p0 + (if IsSaved(ds[n - 1]) then [n - 1] else []);
      forall j | 0 <= j < |r|
        ensures p[j] < n && IsSaved(ds[p[j]]) && r[j] == MemeName(ds[p[j]].now, p[j] + 1)
      {
        if j < |n0| {
          assert r[j] == n0[j] && p[j] == p0[j];
        }
      }
    }
  }

  /** The `j`-th collected name is that of the `j`-th saved download, with its 1-based position. */
  lemma NamesAtPositions(ds: seq<Download>)
    ensures |Names(ds)| == |Positions(ds, IsSaved)|
    ensures forall j :: 0 <= j < |Names(ds)| ==>
      var i := Positions(ds, IsSaved)[j];
      i < |ds| && IsSaved(ds[i]) && Names(ds)[j] == MemeName(ds[i].now, i + 1)
  {
    NamesUpToPositions(ds, |ds|);
    assert ds[..|ds|] == ds;
  }

  /**
   * What `generate_memes` returns. `memes` is None when the request to the meme API or the
   * decoding of its answer raises, otherwise one Download per returned URL, in order.
   */
  function Generated(memes: Option<seq<Download>>): seq<string>
  {
    match memes
    case None => []
    case Some(ds) => if Aborts(ds) then [] else Names(ds)
  }

  /**
   * A call whose request fails or one of whose iterations raises returns nothing; otherwise it
   * returns exactly one name per status-200 download, in URL order (so with increasing 1-based
   * positions), built from that download's clock reading and the position of its URL.
   */
  lemma GeneratedNames(memes: Option<seq<Download>>)
    ensures memes.None? || Aborts(memes.value) ==> Generated(memes) == []
    ensures memes.Some? && !Aborts(memes.value) ==>
      var ds, p := memes.value, Positions(memes.value, IsSaved);
      && |Generated(memes)| == |p|
      && (forall j :: 0 <= j < |p| ==>
            p[j] < |ds| && IsSaved(ds[p[j]]) && Generated(memes)[j] == MemeName(ds[p[j]].now, p[j] + 1))
      && forall j, k :: 0 <= j < k < |p| ==> p[j] < p[k]
  {
    if memes.Some? {
      NamesAtPositions(memes.value);
      PositionsExact(memes.value, IsSaved);
    }
  }

  /** The download loop of `generate_memes`. */
  method GenerateMemes(memes: Option<seq<Download>>) returns (paths: seq<string>)
    ensures paths == Generated(memes)
  {
    if memes.None? {
      return [];
    }
    var ds := memes.value;
    paths := [];
    var i := 0;
    while i < |ds|
      invariant 0 <= i <= |ds|
      invariant forall k :: 0 <= k < i ==> ds[k].Response?
      invariant paths == NamesUpTo(ds, i)
    {
      match ds[i]
      case Raised =>
        return [];
      case Response(status, now) =>
        if status == HTTP_OK {
          paths := paths + [MemeName(now, i + 1)];
        }
      i := i + 1;
    }
  }

  /** Every status-200 download of a call that does not raise is named in its result. */
  lemma SavedDownloadsNamed(ds: seq<Download>, i: nat)
    requires !Aborts(ds)
    requires i < |ds| && IsSaved(ds[i])
    ensures MemeName(ds[i].now, i + 1) in Generated(Some(ds))
  {
    var p := Positions(ds, IsSaved);
    assert i in p by {
      PositionsExact(ds, IsSaved);
    }
    var j :| 0 <= j < |p| && p[j] == i;
    assert Generated(Some(ds)) == Names(ds);
    assert j < |Names(ds)| && Names(ds)[j] == MemeName(ds[i].now, i + 1) by {
      NamesAtPositions(ds);
    }
  }

  /** With clock readings of the usual width, one call never returns the same name twice. */
  lemma GeneratedNamesDistinct(memes: Option<seq<Download>>)
    requires memes.Some?
    requires forall i :: 0 <= i < |memes.value| && memes.value[i].Response? ==> |memes.value[i].now| == STAMP_WIDTH
    ensures var r := Generated(memes); forall j, k :: 0 <= j < k < |r| ==> r[j] != r[k]
  {
    var ds, r := memes.value, Generated(memes);
    if !Aborts(ds) {
      NamesAtPositions(ds);
      PositionsExact(ds, IsSaved);
      var p := Positions(ds, IsSaved);
      forall j, k | 0 <= j < k < |r|
        ensures r[j] != r[k]
      {
        if r[j] == r[k] {
          MemeNameInjective(ds[p[j]].now, p[j] + 1, ds[p[k]].now, p[k] + 1);
        }
      }
    }
  }
}
