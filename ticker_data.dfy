/** The ticker vocabulary of the class TickerData: the symbol column of every
    listing file, de-duplicated, without the excluded symbols and the
    one-letter ones, followed by the same symbols spelled with a leading
    dollar sign. */
module TickerData {
  import opened Collections
  import opened Frames

  /** A listing file as its columns: column name to the column's values, top to bottom. */
  type Listing = map<string, seq<string>>

  /** The column this module reads from every listing. */
  const SYMBOL_COLUMN: string := "Symbol"

  /** The named column of the first `n` listings, one after the other. */
  function Columns(listings: seq<Listing>, column: string, n: nat): (r: seq<string>)
    requires n <= |listings| && forall j | 0 <= j < n :: column in listings[j]
    decreases n
  {
    if n == 0 then [] else Columns(listings, column, n - 1) + listings[n - 1][column]
  }

  lemma {:induction false} ColumnsMembership(listings: seq<Listing>, column: string, n: nat, t: string)
    requires n <= |listings| && forall j | 0 <= j < n :: column in listings[j]
    ensures t in Columns(listings, column, n) <==> exists j | 0 <= j < n :: t in listings[j][column]
    decreases n
  {
    if n > 0 {
      ColumnsMembership(listings, column, n - 1, t);
    }
  }

  /** `read_ticker_file`: the named column of every listing, concatenated and
      de-duplicated; a listing without that column is a key error. */
  method ReadTickerFile(listings: seq<Listing>, column: string) returns (r: Result<seq<string>, FrameError>)
    ensures r.Err? <==> exists j | 0 <= j < |listings| :: column !in listings[j]
    ensures r.Err? ==> r.error == KeyError(column)
    ensures r.Ok? ==> NoDuplicates(r.value)
    ensures r.Ok? ==> forall t :: t in r.value <==> exists j | 0 <= j < |listings| :: t in listings[j][column]
  {
    var tickerList: seq<string> := [];
    for i := 0 to |listings|
      invariant forall j | 0 <= j < i :: column in listings[j]
      invariant tickerList == Columns(listings, column, i)
    {
      if column !in listings[i] {
        return Err(KeyError(column));
      }
      tickerList := tickerList + listings[i][column];
    }
    forall t ensures t in tickerList <==> exists j | 0 <= j < |listings| :: t in listings[j][column] {
      ColumnsMembership(listings, column, |listings|, t);
    }
    var unique := Distinct(tickerList);
    forall t ensures t in unique <==> t in tickerList {
      if t in unique {
        var i :| 0 <= i < |unique| && unique[i] == t;
      }
      if t in tickerList {
        var i :| 0 <= i < |tickerList| && tickerList[i] == t;
      }
    }
    r := Ok(unique);
  }

  /** A symbol the vocabulary keeps: not excluded and not a single character. */
  predicate Kept(t: string, exceptions: seq<string>) {
    t !in exceptions && |t| != 1
  }

  /** `remove_exceptions`: the symbols, in order, without the excluded ones and
      without those of length one. */
  function RemoveExceptions(tickers: seq<string>, exceptions: seq<string>): (r: seq<string>)
    ensures forall t :: t in r <==> t in tickers && Kept(t, exceptions)
    ensures IsSubseq(r, tickers)
    ensures forall t :: multiset(r)[t] == if Kept(t, exceptions) then multiset(tickers)[t] else 0
    ensures NoDuplicates(tickers) ==> NoDuplicates(r)
  {
    KeptTwoPasses(tickers, exceptions);
    FilterFacts(tickers, t => Kept(t, exceptions));
    Filter(Filter(tickers, (t: string) => t !in exceptions), (t: string) => |t| != 1)
  }

  /** Dropping the excluded symbols and then the single characters is one
      filter by `Kept`. */
  lemma KeptTwoPasses(tickers: seq<string>, exceptions: seq<string>)
    ensures Filter(Filter(tickers, (t: string) => t !in exceptions), (t: string) => |t| != 1)
         == Filter(tickers, t => Kept(t, exceptions))
  {
    FilterFilter(tickers, (t: string) => t !in exceptions, (t: string) => |t| != 1, t => Kept(t, exceptions));
  }

  /** Removing exceptions keeps exactly the kept symbols, in order. */
  lemma RemoveExceptionsIsFilter(tickers: seq<string>, exceptions: seq<string>)
    ensures RemoveExceptions(tickers, exceptions) == Filter(tickers, t => Kept(t, exceptions))
  {
    KeptTwoPasses(tickers, exceptions);
  }

  /** Every symbol of `tickers` with a dollar sign in front, in order. */
  function Dollars(tickers: seq<string>): (r: seq<string>)
    ensures |r| == |tickers|
    ensures forall i | 0 <= i < |tickers| :: r[i] == "$" + tickers[i]
  {
    seq(|tickers|, i requires 0 <= i < |tickers| => "$" + tickers[i])
  }

  /** `create_variation`: the symbols, then each symbol with a dollar sign in front. */
  function CreateVariation(tickers: seq<string>): (r: seq<string>)
    ensures |r| == 2 * |tickers|
    ensures r[..|tickers|] == tickers
    ensures forall i | 0 <= i < |tickers| :: r[|tickers| + i] == "$" + tickers[i]
    ensures forall t :: t in r <==> t in tickers || (|t| > 0 && t[0] == '$' && t[1..] in tickers)
  {
    var dollarTickerList := Dollars(tickers);
    var r := tickers + dollarTickerList;
    forall t | |t| > 0 && t[0] == '$' && t[1..] in tickers ensures t in r {
      var i :| 0 <= i < |tickers| && tickers[i] == t[1..];
      assert t == "$" + tickers[i];
      assert r[|tickers| + i] == t;
    }
    forall t | t in dollarTickerList ensures |t| > 0 && t[0] == '$' && t[1..] in tickers {
      var i :| 0 <= i < |tickers| && dollarTickerList[i] == t;
      assert t[1..] == tickers[i];
    }
    r
  }

  /** A symbol list without repeats and without dollar-led symbols gives a
      variation list without repeats. */
  lemma VariationNoDuplicates(tickers: seq<string>)
    requires NoDuplicates(tickers)
    requires forall i | 0 <= i < |tickers| :: |tickers[i]| == 0 || tickers[i][0] != '$'
    ensures NoDuplicates(CreateVariation(tickers))
  {
    var r := CreateVariation(tickers);
    var n := |tickers|;
    forall i, j | 0 <= i < j < |r| ensures r[i] != r[j] {
      if j >= n && i < n {
        assert r[j] == "$" + tickers[j - n];
        assert r[i] == tickers[i];
        assert r[j][0] == '$';
      } else if i >= n {
        assert r[i] == "$" + tickers[i - n] && r[j] == "$" + tickers[j - n];
        assert r[i][1..] == tickers[i - n] && r[j][1..] == tickers[j - n];
      }
    }
  }

  /** The symbol appears in the symbol column of some listing. */
  predicate Listed(listings: seq<Listing>, t: string) {
    exists j | 0 <= j < |listings| :: SYMBOL_COLUMN in listings[j] && t in listings[j][SYMBOL_COLUMN]
  }

  /** `create_data`: the vocabulary of the listings. It holds every listed,
      kept symbol and its dollar spelling, and nothing else; a listing
      without a symbol column is a key error. */
  method CreateData(listings: seq<Listing>, exceptions: seq<string>) returns (r: Result<seq<string>, FrameError>)
    ensures r.Err? <==> exists j | 0 <= j < |listings| :: SYMBOL_COLUMN !in listings[j]
    ensures r.Err? ==> r.error == KeyError(SYMBOL_COLUMN)
    ensures r.Ok? ==> forall t :: t in r.value <==>
              (Listed(listings, t) && Kept(t, exceptions))
              || (|t| > 0 && t[0] == '$' && Listed(listings, t[1..]) && Kept(t[1..], exceptions))
    ensures r.Ok? && (forall t | Listed(listings, t) :: |t| == 0 || t[0] != '$') ==> NoDuplicates(r.value)
  {
    var tickerList :- ReadTickerFile(listings, SYMBOL_COLUMN);
    var kept := RemoveExceptions(tickerList, exceptions);
    r := Ok(CreateVariation(kept));
    assert forall j | 0 <= j < |listings| :: SYMBOL_COLUMN in listings[j];
    forall t ensures t in kept <==> Listed(listings, t) && Kept(t, exceptions) {
      assert t in tickerList <==> exists j | 0 <= j < |listings| :: t in listings[j][SYMBOL_COLUMN];
    }
    if forall t | Listed(listings, t) :: |t| == 0 || t[0] != '$' {
      forall i | 0 <= i < |kept| ensures |kept[i]| == 0 || kept[i][0] != '$' {
        assert kept[i] in tickerList;
      }
      VariationNoDuplicates(kept);
    }
  }
}
