/** The serverless function `handler`: a decision over the HTTP method, the path and whether
    importing the data module succeeds. */
module NetlifyFunction {
  import opened Wallpapers

  /** A response body: literal text, or `JSON.stringify` of a list of records. */
  datatype Body = Text(text: string) | Serialized(wallpapers: seq<Wallpaper>)

  datatype Response = Response(statusCode: int, headers: seq<(string, string)>, body: Body)

  /** Outcome of `import('../../src/mockData.js')`. */
  datatype ImportOutcome = Imported(mockData: seq<Wallpaper>) | ImportFailed

  /** The CORS and content-type headers every response carries, in declaration order. */
  const Headers: seq<(string, string)> := [
    ("Access-Control-Allow-Origin", "*"),
    ("Access-Control-Allow-Headers", "Content-Type"),
    ("Access-Control-Allow-Methods", "GET, POST, OPTIONS"),
    ("Content-Type", "application/json")
  ]

  const WallpapersPath := "/.netlify/functions/api/wallpapers"

  /** `JSON.stringify({ error: 'Not Found' })`. */
  const NotFoundBody := "{\"error\":\"Not Found\"}"

  function Handler(httpMethod: string, path: string, load: ImportOutcome): (r: Response)
    ensures r.headers == Headers
    ensures httpMethod == "OPTIONS" <==> r.statusCode == 204
    ensures r.statusCode == 204 ==> r.body == Text("")
    ensures r.statusCode == 404 <==> httpMethod != "OPTIONS" && (httpMethod != "GET" || path != WallpapersPath)
    ensures r.statusCode == 404 ==> r.body == Text(NotFoundBody)
    ensures r.statusCode == 200 <==> httpMethod == "GET" && path == WallpapersPath
    ensures r.statusCode == 200 ==>
      r.body == Serialized(if load.Imported? then load.mockData else FallbackWallpapers)
  {
    if httpMethod == "OPTIONS" then
      Response(204, Headers, Text(""))
    else if httpMethod != "GET" || path != WallpapersPath then
      Response(404, Headers, Text(NotFoundBody))
    else
      match load
      case Imported(data) => Response(200, Headers, Serialized(data))
      case ImportFailed => Response(200, Headers, Serialized(FallbackWallpapers))
  }

  /** Only three status codes are ever produced. */
  lemma HandlerStatusCodes(httpMethod: string, path: string, load: ImportOutcome)
    ensures Handler(httpMethod, path, load).statusCode in {200, 204, 404}
  {
  }

  /** POST is advertised in Access-Control-Allow-Methods, yet every POST is answered 404. */
  lemma PostAdvertisedButNotFound(path: string, load: ImportOutcome)
    ensures ("Access-Control-Allow-Methods", "GET, POST, OPTIONS") in Handler("POST", path, load).headers
    ensures Handler("POST", path, load).statusCode == 404
  {
  }

  /** A failed import never surfaces: the wallpapers route answers 200 with the fallback list. */
  lemma ImportFailureServesFallback()
    ensures Handler("GET", WallpapersPath, ImportFailed) == Response(200, Headers, Serialized(FallbackWallpapers))
  {
  }
}
