/** The detail page: the route id, the load of one record, which view is shown, and the file
    name offered for download. */
module WallpaperDetail {
  import opened Outcomes
  import opened Seqs
  import opened Text
  import opened Wallpapers
  import opened JsNumbers
  import opened ApiClient

  /** `parseInt(id || '0')`: a missing or empty route parameter reads as "0". */
  function RouteId(param: Option<string>): (n: JsNumber)
    ensures param.None? || param == Some("") ==> n == Num(0)
    ensures param.Some? && param.value != "" ==> n == ParseInt(param.value)
  {
    if param.None? || param.value == "" then
      ParseIntRoundTrip(0);
      assert DecimalText(0) == "0";
      ParseInt("0")
    else ParseInt(param.value)
  }

  /** A route parameter that is the decimal text of an integer yields that integer. */
  lemma RouteIdOfDecimal(n: int)
    ensures RouteId(Some(DecimalText(n))) == Num(n)
  {
    ParseIntRoundTrip(n);
  }

  const LoadFailedMessage := "Failed to load wallpaper details. Please try again later."

  /** What the page renders. */
  datatype View = LoadingView | ErrorView(message: string) | NotFoundView | DetailView(wallpaper: Wallpaper)

  /** The page's state: the record shown (`null` is None), the loading flag and the error. */
  datatype DetailState = DetailState(wallpaper: Option<Wallpaper>, isLoading: bool, error: Option<string>)

  /** A string is truthy when it is not empty. */
  predicate Truthy(e: Option<string>) {
    e.Some? && e.value != ""
  }

  /** The view shown for a state: loading first, then the error, then "not found" when there
      is no record, and only then the record. */
  function Render(s: DetailState): (v: View)
    ensures v == LoadingView <==> s.isLoading
    ensures v.ErrorView? <==> !s.isLoading && Truthy(s.error)
    ensures v.ErrorView? ==> v.message == s.error.value
    ensures v == NotFoundView <==> !s.isLoading && !Truthy(s.error) && s.wallpaper.None?
    ensures v.DetailView? <==> !s.isLoading && !Truthy(s.error) && s.wallpaper.Some?
    ensures v.DetailView? ==> v.wallpaper == s.wallpaper.value
  {
    if s.isLoading then LoadingView
    else if Truthy(s.error) then ErrorView(s.error.value)
    else if s.wallpaper.None? then NotFoundView
    else DetailView(s.wallpaper.value)
  }

  /** The state after `setIsLoading(true)` and `setError(null)`. */
  function BeginLoad(s: DetailState): (t: DetailState)
    ensures t.isLoading && t.error.None? && t.wallpaper == s.wallpaper
  {
    s.(isLoading := true, error := None)
  }

  /** The state once the lookup settles: the record on success, the fixed message on failure
      (the record shown before is kept), and loading off either way. */
  function FinishLoad(s: DetailState, result: Result<Wallpaper, LookupError>): (t: DetailState)
    ensures !t.isLoading
    ensures result.Ok? ==> t.wallpaper == Some(result.value) && t.error == s.error
    ensures result.Err? ==> t.wallpaper == s.wallpaper && t.error == Some(LoadFailedMessage)
  {
    match result
    case Ok(w) => s.(wallpaper := Some(w), isLoading := false)
    case Err(_) => s.(error := Some(LoadFailedMessage), isLoading := false)
  }

  /** One whole `loadWallpaper` run, from the state it starts in. */
  function LoadStep(s: DetailState, param: Option<string>, o: FetchOutcome): (t: DetailState)
    ensures !t.isLoading
    ensures FetchWallpaperById(o, RouteId(param)).Ok? ==>
      t.wallpaper == Some(FetchWallpaperById(o, RouteId(param)).value) && t.error.None?
    ensures FetchWallpaperById(o, RouteId(param)).Err? ==>
      t.wallpaper == s.wallpaper && t.error == Some(LoadFailedMessage)
  {
    FinishLoad(BeginLoad(s), FetchWallpaperById(o, RouteId(param)))
  }

  /** While the lookup is pending the page shows the spinner. */
  lemma PendingShowsLoading(s: DetailState)
    ensures Render(BeginLoad(s)) == LoadingView
  {
  }

  /** A settled load shows the record that carries the requested id, or the error; never the
      spinner and never "not found". */
  lemma SettledLoadView(s: DetailState, param: Option<string>, o: FetchOutcome)
    ensures var v := Render(LoadStep(s, param, o));
      (v.DetailView? && FetchWallpaperById(o, RouteId(param)) == Ok(v.wallpaper)) ||
      (v == ErrorView(LoadFailedMessage) && FetchWallpaperById(o, RouteId(param)).Err?)
  {
  }

  /** The page component's state, updated in place by the load. */
  class DetailPage {
    var wallpaper: Option<Wallpaper>
    var isLoading: bool
    var error: Option<string>

    function State(): DetailState
      reads this
    {
      DetailState(wallpaper, isLoading, error)
    }

    /** The initial state: no record, loading, no error. */
    constructor ()
      ensures State() == DetailState(None, true, None)
    {
      wallpaper := None;
      isLoading := true;
      error := None;
    }

    /** `loadWallpaper`: mark loading and clear the error, look the route id up, then record
        the result and clear the loading flag. */
    method LoadWallpaper(param: Option<string>, o: FetchOutcome)
      modifies this
      ensures State() == LoadStep(old(State()), param, o)
    {
      isLoading := true;
      error := None;
      assert State() == BeginLoad(old(State()));
      var result := FetchWallpaperById(o, RouteId(param));
      match result {
        case Ok(w) => wallpaper := Some(w);
        case Err(_) => error := Some(LoadFailedMessage);
      }
      isLoading := false;
    }
  }

  /** `s.replace(/\s+/g, '-')`: every maximal whitespace run becomes one hyphen. */
  function HyphenateSpaces(s: string): (r: string)
    ensures forall i :: 0 <= i < |r| ==> !IsSpace(r[i])
    ensures |r| <= |s|
    decreases |s|
  {
    if s == [] then []
    else if IsSpace(s[0]) then "-" + HyphenateSpaces(s[SpaceRun(s)..])
    else [s[0]] + HyphenateSpaces(s[1..])
  }

  /** Apart from hyphens, the result holds exactly the text's characters that are neither
      whitespace nor hyphens, in order. */
  lemma {:induction false} HyphenateSpacesKeepsText(s: string)
    ensures Filter(HyphenateSpaces(s), NotHyphen) == Filter(s, NotSpaceOrHyphen)
    decreases |s|
  {
    if s == [] {
    } else if IsSpace(s[0]) {
      var n := SpaceRun(s);
      var rest := HyphenateSpaces(s[n..]);
      HyphenateSpacesKeepsText(s[n..]);
      FilterHyphenatedRun(s, n);
      FilterCons('-', rest, NotHyphen);
    } else {
      var rest := HyphenateSpaces(s[1..]);
      HyphenateSpacesKeepsText(s[1..]);
      FilterCons(s[0], rest, NotHyphen);
      FilterCons(s[0], s[1..], NotSpaceOrHyphen);
      assert s == [s[0]] + s[1..];
    }
  }

  predicate NotHyphen(c: char) {
    c != '-'
  }

  predicate NotSpaceOrHyphen(c: char) {
    c != '-' && !IsSpace(c)
  }

  lemma FilterHyphenatedRun(s: string, n: nat)
    requires n <= |s| && AllSpace(s[..n])
    ensures Filter(s, NotSpaceOrHyphen) == Filter(s[n..], NotSpaceOrHyphen)
  {
    assert s == s[..n] + s[n..];
    FilterAppend(s[..n], s[n..], NotSpaceOrHyphen);
    FilterNone(s[..n], NotSpaceOrHyphen);
  }

  /** A text without whitespace is left as it is. */
  lemma {:induction false} HyphenateWithoutSpaces(s: string)
    requires forall i :: 0 <= i < |s| ==> !IsSpace(s[i])
    ensures HyphenateSpaces(s) == s
    decreases |s|
  {
    if s != [] {
      HyphenateWithoutSpaces(s[1..]);
    }
  }

  /** A word, then one maximal whitespace run, then the rest: the run becomes a single hyphen
      and the word is kept as it is. */
  lemma {:induction false} HyphenateRun(word: string, run: string, rest: string)
    requires forall i :: 0 <= i < |word| ==> !IsSpace(word[i])
    requires run != [] && AllSpace(run)
    requires rest == [] || !IsSpace(rest[0])
    ensures HyphenateSpaces(word + run + rest) == word + "-" + HyphenateSpaces(rest)
    decreases |word|
  {
    if word == [] {
      assert word + run + rest == run + rest;
      HyphenateLeadingRun(run, rest);
      assert word + "-" + HyphenateSpaces(rest) == "-" + HyphenateSpaces(rest);
    } else {
      var tail := word[1..] + run + rest;
      assert word + run + rest == [word[0]] + tail;
      HyphenateCons(word[0], tail);
      HyphenateRun(word[1..], run, rest);
      assert word + "-" + HyphenateSpaces(rest) == [word[0]] + (word[1..] + "-" + HyphenateSpaces(rest));
    }
  }

  /** A character that is not whitespace is copied. */
  lemma HyphenateCons(c: char, t: string)
    requires !IsSpace(c)
    ensures HyphenateSpaces([c] + t) == [c] + HyphenateSpaces(t)
  {
    assert ([c] + t)[1..] == t;
  }

  /** A leading whitespace run becomes one hyphen. */
  lemma HyphenateLeadingRun(run: string, rest: string)
    requires run != [] && AllSpace(run)
    requires rest == [] || !IsSpace(rest[0])
    ensures HyphenateSpaces(run + rest) == "-" + HyphenateSpaces(rest)
  {
    var s := run + rest;
    assert IsSpace(s[0]);
    RunLength(run, rest);
    assert s[|run|..] == rest;
  }

  lemma {:induction false} RunLength(run: string, rest: string)
    requires AllSpace(run)
    requires rest == [] || !IsSpace(rest[0])
    ensures SpaceRun(run + rest) == |run|
    decreases |run|
  {
    if run != [] {
      assert (run + rest)[1..] == run[1..] + rest;
      assert AllSpace(run[1..]) by {
        assert forall i :: 0 <= i < |run[1..]| ==> run[1..][i] == run[i + 1];
      }
      RunLength(run[1..], rest);
    } else {
      assert run + rest == rest;
    }
  }

  const DownloadSuffix := "-wallpaper.jpg"

  /** The `download` attribute: the lower-cased title with whitespace runs turned into
      hyphens, then "-wallpaper.jpg". */
  function DownloadFileName(title: string): (name: string)
    ensures |name| >= |DownloadSuffix| && name[|name| - |DownloadSuffix|..] == DownloadSuffix
  {
    HyphenateSpaces(ToLower(title)) + DownloadSuffix
  }

  /** The file name has no whitespace and no upper-case letter. */
  lemma DownloadFileNamePlain(title: string)
    ensures var name := DownloadFileName(title);
      forall i :: 0 <= i < |name| ==> !IsSpace(name[i]) && !IsUpper(name[i])
  {
    var slug := HyphenateSpaces(ToLower(title));
    var name := DownloadFileName(title);
    HyphenateSpacesKeepsText(ToLower(title));
    FilterSubsetChars(slug, ToLower(title));
    SuffixIsPlain();
    forall i | 0 <= i < |name| ensures !IsSpace(name[i]) && !IsUpper(name[i]) {
      if i < |slug| {
        assert name[i] == slug[i];
      } else {
        assert name[i] == DownloadSuffix[i - |slug|];
      }
    }
  }

  /** Before the suffix, the name holds the title's characters other than whitespace and
      hyphens, lower-cased and in order, separated only by hyphens. */
  lemma DownloadFileNameKeepsTitle(title: string)
    ensures var name := DownloadFileName(title);
      Filter(name[..|name| - |DownloadSuffix|], NotHyphen) == Filter(ToLower(title), NotSpaceOrHyphen)
  {
    var name := DownloadFileName(title);
    assert name[..|name| - |DownloadSuffix|] == HyphenateSpaces(ToLower(title));
    HyphenateSpacesKeepsText(ToLower(title));
  }

  lemma SuffixIsPlain()
    ensures forall i :: 0 <= i < |DownloadSuffix| ==> !IsSpace(DownloadSuffix[i]) && !IsUpper(DownloadSuffix[i])
  {
  }

  /** Every non-hyphen character of the slug comes from the lower-cased title. */
  lemma FilterSubsetChars(slug: string, lowered: string)
    requires Filter(slug, NotHyphen) == Filter(lowered, NotSpaceOrHyphen)
    requires forall i :: 0 <= i < |lowered| ==> !IsUpper(lowered[i])
    ensures forall i :: 0 <= i < |slug| ==> !IsUpper(slug[i])
  {
    forall i | 0 <= i < |slug| ensures !IsUpper(slug[i]) {
      if slug[i] != '-' {
        FilterCount(slug, NotHyphen);
        FilterCount(lowered, NotSpaceOrHyphen);
        assert multiset(slug)[slug[i]] > 0;
        assert multiset(Filter(lowered, NotSpaceOrHyphen))[slug[i]] > 0;
        assert slug[i] in lowered;
      }
    }
  }
}
