/** The home page's derived state: the category menu, the category and search filters, and the
    empty-results message. */
module Gallery {
  import opened Seqs
  import opened Text
  import opened Wallpapers

  /** The category that means "no category filter". */
  const All := "All"

  /** `wallpapers.map(w => w.category)`. */
  function CategoryColumn(ws: seq<Wallpaper>): (cs: seq<string>)
    ensures |cs| == |ws| && forall i :: 0 <= i < |ws| ==> cs[i] == ws[i].category
  {
    seq(|ws|, i requires 0 <= i < |ws| => ws[i].category)
  }

  /** The category menu: "All", then each distinct category once, in order of first appearance. */
  function Categories(ws: seq<Wallpaper>): (r: seq<string>)
    ensures |r| >= 1 && r[0] == All
    ensures forall c :: c in r[1..] <==> c in CategoryColumn(ws)
    ensures NoDuplicates(r[1..])
    ensures forall i, j :: 1 <= i < j < |r| ==>
      FirstIndex(CategoryColumn(ws), r[i]) < FirstIndex(CategoryColumn(ws), r[j])
  {
    var r := [All] + Distinct(CategoryColumn(ws));
    assert r[1..] == Distinct(CategoryColumn(ws));
    DistinctFirstSeenOrder(CategoryColumn(ws));
    r
  }

  predicate InCategory(w: Wallpaper, selected: string) {
    w.category == selected
  }

  /** The category stage: the list itself for "All", otherwise the records of exactly that
      category (case-sensitive), in order. */
  function ByCategory(ws: seq<Wallpaper>, selected: string): (r: seq<Wallpaper>)
    ensures selected == All ==> r == ws
    ensures selected != All ==> forall w :: w in r ==> w.category == selected
    ensures selected != All ==>
      forall w :: multiset(r)[w] == (if w.category == selected then multiset(ws)[w] else 0)
    ensures IsSubsequence(r, ws)
  {
    if selected != All then
      var p := w => InCategory(w, selected);
      FilterCount(ws, p);
      FilterIsSubsequence(ws, p);
      Filter(ws, p)
    else
      FilterIsSubsequence(ws, w => true);
      FilterAll(ws, w => true);
      ws
  }

  /** The lower-cased title, or some lower-cased tag, includes `term`. */
  predicate MatchesTerm(w: Wallpaper, term: string) {
    Includes(ToLower(w.title), term) ||
    exists k :: 0 <= k < |w.tags| && Includes(ToLower(w.tags[k]), term)
  }

  /** The search stage: a term that is blank after trimming keeps the list; otherwise the
      records whose title or some tag includes the trimmed, lower-cased term, in order. */
  function BySearch(ws: seq<Wallpaper>, searchTerm: string): (r: seq<Wallpaper>)
    ensures AllSpace(searchTerm) ==> r == ws
    ensures !AllSpace(searchTerm) ==> forall w :: multiset(r)[w] ==
                                        (if MatchesTerm(w, ToLower(Trim(searchTerm))) then multiset(ws)[w] else 0)
    ensures IsSubsequence(r, ws)
  {
    if Trim(searchTerm) != [] then
      var term := ToLower(Trim(searchTerm));
      var p := w => MatchesTerm(w, term);
      FilterCount(ws, p);
      FilterIsSubsequence(ws, p);
      Filter(ws, p)
    else
      FilterIsSubsequence(ws, w => true);
      FilterAll(ws, w => true);
      ws
  }

  /** `filteredWallpapers`: the category stage, then the search stage. */
  function FilteredWallpapers(ws: seq<Wallpaper>, selected: string, searchTerm: string): (r: seq<Wallpaper>)
    ensures forall w :: multiset(r)[w] <= multiset(ws)[w]
    ensures forall w :: w in r ==> selected == All || w.category == selected
  {
    BySearch(ByCategory(ws, selected), searchTerm)
  }

  /** Whether a record passes both stages. */
  predicate Selected(w: Wallpaper, selected: string, searchTerm: string) {
    (selected == All || w.category == selected) &&
    (AllSpace(searchTerm) || MatchesTerm(w, ToLower(Trim(searchTerm))))
  }

  /** The two stages together keep exactly the records that pass both, each as often as it
      occurs in the input, and in input order. */
  lemma FilteredWallpapersSelects(ws: seq<Wallpaper>, selected: string, searchTerm: string)
    ensures FilteredWallpapers(ws, selected, searchTerm) == Filter(ws, w => Selected(w, selected, searchTerm))
    ensures forall w :: multiset(FilteredWallpapers(ws, selected, searchTerm))[w] ==
                       (if Selected(w, selected, searchTerm) then multiset(ws)[w] else 0)
    ensures IsSubsequence(FilteredWallpapers(ws, selected, searchTerm), ws)
  {
    var sel := w => Selected(w, selected, searchTerm);
    var term := ToLower(Trim(searchTerm));
    var cat := w => InCategory(w, selected);
    var search := w => MatchesTerm(w, term);
    if selected != All && !AllSpace(searchTerm) {
      FilterFilter(ws, cat, search, sel);
    } else if selected != All {
      FilterSame(ws, cat, sel);
    } else if !AllSpace(searchTerm) {
      FilterSame(ws, search, sel);
    } else {
      FilterAll(ws, sel);
    }
    FilterCount(ws, sel);
    FilterIsSubsequence(ws, sel);
  }

  /** The text shown when nothing is left to display. A search term (taken as typed, untrimmed)
      is quoted and the category is named only when it is not "All"; without a search term the
      category is always named, "All" included. */
  function EmptyResultsMessage(searchTerm: string, selected: string): (m: string)
    ensures searchTerm != "" ==>
      var prefix := "No wallpapers found matching \"";
      |m| > |prefix| + |searchTerm| && m[..|prefix|] == prefix &&
      m[|prefix|..|prefix| + |searchTerm|] == searchTerm &&
      m[|prefix| + |searchTerm|..] == (if selected != All then "\" in " + selected + "." else "\".")
    ensures searchTerm == "" ==> m == "No wallpapers found in " + selected + "."
  {
    if searchTerm != "" then
      "No wallpapers found matching \"" + searchTerm + "\"" + (if selected != All then " in " + selected else "") + "."
    else
      "No wallpapers found in " + selected + "."
  }
}
