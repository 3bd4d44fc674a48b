/** The client's data service: `fetchWallpapers`, which turns every failure into an empty list,
    and `fetchWallpaperById`, which looks an id up in that list. The HTTP request itself is
    not modelled: its outcome is an input. */
module ApiClient {
  import opened Outcomes
  import opened Wallpapers
  import opened JsNumbers

  /** How the request for `/wallpapers` ended. */
  datatype FetchOutcome =
    /** A response arrived: `ok` is `response.ok`; `body` is what `response.json()` produced,
        or None when reading or parsing the body failed. */
    | Responded(ok: bool, body: Option<seq<Wallpaper>>)
    /** `fetch` rejected: network failure, or the ten-second abort fired. */
    | Rejected

  /** The two errors `fetchWallpaperById` throws. */
  datatype LookupError =
    | NoWallpapersAvailable
    | WallpaperNotFound(id: JsNumber)

  /** The list `fetchWallpapers` resolves to. It never rejects: a non-OK status, a rejected
      request and an unreadable body all give the empty list. */
  function FetchWallpapers(o: FetchOutcome): (ws: seq<Wallpaper>)
    ensures o.Responded? && o.ok && o.body.Some? ==> ws == o.body.value
    ensures o.Rejected? || (o.Responded? && !o.ok) || (o.Responded? && o.body.None?) ==> ws == []
  {
    match o
    case Responded(ok, body) =>
      if !ok then []
      else if body.None? then []
      else body.value
    case Rejected => []
  }

  /** `ws.find(w => w.id === key)`, as an index: the first position whose id is `key`. */
  function FindIndex(ws: seq<Wallpaper>, key: JsNumber): (r: Option<nat>)
    ensures r.Some? ==> r.value < |ws| && StrictEquals(Num(ws[r.value].id), key)
    ensures r.Some? ==> forall k :: 0 <= k < r.value ==> !StrictEquals(Num(ws[k].id), key)
    ensures r.None? ==> forall k :: 0 <= k < |ws| ==> !StrictEquals(Num(ws[k].id), key)
  {
    if ws == [] then None
    else if StrictEquals(Num(ws[0].id), key) then Some(0)
    else
      match FindIndex(ws[1..], key)
      case None => None
      case Some(i) => Some(i + 1)
  }

  /** `fetchWallpaperById(id)`: loads the whole list, fails with "No wallpapers available"
      when it is empty, otherwise returns the first record whose id is `parseInt(id)`, or
      fails with "Wallpaper with ID <id> not found". */
  function FetchWallpaperById(o: FetchOutcome, id: JsNumber): (r: Result<Wallpaper, LookupError>)
    ensures FetchWallpapers(o) == [] <==> r == Err(NoWallpapersAvailable)
    ensures r.Ok? ==> r.value in FetchWallpapers(o)
    ensures r.Ok? ==> StrictEquals(Num(r.value.id), ParseInt(NumberText(id)))
    ensures r.Err? && FetchWallpapers(o) != [] ==>
      r.error == WallpaperNotFound(id) &&
      forall w :: w in FetchWallpapers(o) ==> !StrictEquals(Num(w.id), ParseInt(NumberText(id)))
  {
    var ws := FetchWallpapers(o);
    if |ws| == 0 then Err(NoWallpapersAvailable)
    else
      match FindIndex(ws, ParseInt(NumberText(id)))
      case Some(i) => Ok(ws[i])
      case None => Err(WallpaperNotFound(id))
  }

  /** The record returned is the first one in the list that carries the requested id. */
  lemma FetchByIdReturnsFirstMatch(o: FetchOutcome, id: int, i: nat)
    requires i < |FetchWallpapers(o)| && FetchWallpapers(o)[i].id == id
    requires forall k :: 0 <= k < i ==> FetchWallpapers(o)[k].id != id
    ensures FetchWallpaperById(o, Num(id)) == Ok(FetchWallpapers(o)[i])
  {
    ParseIntOfNumber(Num(id));
  }

  /** A NaN id matches nothing: the lookup fails whatever the list holds, and with a
      non-empty list it fails with "not found". */
  lemma FetchByIdNaNFails(o: FetchOutcome)
    ensures FetchWallpaperById(o, NaN).Err?
    ensures FetchWallpapers(o) != [] ==> FetchWallpaperById(o, NaN) == Err(WallpaperNotFound(NaN))
  {
    ParseIntOfNumber(NaN);
  }

  /** After any failure of the request the lookup reports that no wallpapers are available,
      never that the id was not found. */
  lemma FetchByIdAfterFailure(o: FetchOutcome, id: JsNumber)
    requires o.Rejected? || (o.Responded? && !o.ok)
    ensures FetchWallpaperById(o, id) == Err(NoWallpapersAvailable)
  {
  }
}
