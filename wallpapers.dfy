/** The wallpaper record shared by the client, the Express server and the serverless function,
    and the two-record fallback list both servers answer with when loading the data fails. */
module Wallpapers {

  /** One gallery entry. `dateAdded` holds the timestamp (milliseconds since the epoch) that
      `new Date(dateAdded).getTime()` yields for the record's ISO date. */
  datatype Wallpaper = Wallpaper(
    id: int,
    title: string,
    imageUrl: string,
    thumbnailUrl: string,
    category: string,
    tags: seq<string>,
    resolution: string,
    views: int,
    downloads: int,
    dateAdded: int)

  /** The collection invariants: unique ids, non-negative counters, a non-empty category. */
  predicate WellFormed(ws: seq<Wallpaper>) {
    (forall i, j :: 0 <= i < j < |ws| ==> ws[i].id != ws[j].id) &&
    (forall i :: 0 <= i < |ws| ==> ws[i].views >= 0 && ws[i].downloads >= 0 && ws[i].category != "")
  }

  /** 2023-04-15 and 2023-05-20 at midnight UTC, in milliseconds since the epoch. */
  const April15th2023: int := 1681516800000
  const May20th2023: int := 1684540800000

  const FallbackWallpapers: seq<Wallpaper> := [
    Wallpaper(
      1, "Cosmic Nebula",
      "https://images.unsplash.com/photo-1462331940025-496dfbfc7564",
      "https://images.unsplash.com/photo-1462331940025-496dfbfc7564?w=400",
      "Space", ["galaxy", "stars", "nebula", "cosmos", "purple"], "3840x2160",
      12453, 3782, April15th2023),
    Wallpaper(
      2, "Mountain Sunrise",
      "https://images.unsplash.com/photo-1506905925346-21bda4d32df4",
      "https://images.unsplash.com/photo-1506905925346-21bda4d32df4?w=400",
      "Nature", ["mountains", "sunrise", "landscape", "scenic", "alps"], "3840x2160",
      9876, 2345, May20th2023)
  ]

  /** The fallback list holds ids 1 and 2 and satisfies the collection invariants. */
  lemma FallbackWellFormed()
    ensures |FallbackWallpapers| == 2
    ensures FallbackWallpapers[0].id == 1 && FallbackWallpapers[1].id == 2
    ensures WellFormed(FallbackWallpapers)
  {
  }
}
