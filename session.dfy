/**
 The HTTP session of the remediation client: how a request to the inventory
 service is shaped (path, session cookie, headers) and how the service's reply
 is turned into a body, an error or a fatal authentication failure. The
 transport itself is a parameter: a function from a request to what came back.
 */
module Session {
  import opened Text
  import opened Inventory

  datatype Option<T> = None | Some(value: T)

  /** The credentials and identifying header the client sends with every request. */
  datatype Client = Client(userAgent: string, cookie: string, xsrfToken: string)

  datatype Cookie = Cookie(name: string, value: string)

  /** A request as built by the client: HTTP method, path below the service's base URL, optional body, headers and cookies. */
  datatype Request = Request(
    verb: string,
    path: string,
    body: Option<string>,
    header: map<string, string>,
    cookies: seq<Cookie>)

  /** What the transport gave back: a failure to send or read, or a status code and the body text. */
  datatype Exchange = TransportFailure(reason: string) | Received(statusCode: int, body: string)

  /** The decision taken on a reply. AuthFailure ends the whole process. */
  datatype Outcome = TransportError(reason: string) | AuthFailure | RequestFailed(message: string) | Success(body: string)

  /** A step of the pipeline either produces its value or stops the process. */
  datatype Step<T> = Done(value: T) | Fatal(cause: Outcome)

  const AssetsPathPrefix: string := "/api/1.0/assets/"
  const SearchPath: string := "/api/1.0/search/aql"
  const SessionCookieName: string := "JSESSIONID"
  const JsonMediaType: string := "application/json"
  const UnauthorizedMarker: string := "\"statusCode\":401"

  /** The detail and update endpoint of one asset. */
  function AssetPath(id: string): (p: string)
  {
    AssetsPathPrefix + id
  }

  /** The asset path names the asset: it starts with the fixed prefix and the rest is the id. */
  lemma AssetPathNamesAsset(id: string, other: string)
    ensures AssetPath(id)[..|AssetsPathPrefix|] == AssetsPathPrefix
    ensures AssetPath(id)[|AssetsPathPrefix|..] == id
    ensures AssetPath(id) == AssetPath(other) <==> id == other
  {
    if AssetPath(id) == AssetPath(other) {
      assert id == AssetPath(id)[|AssetsPathPrefix|..];
      assert other == AssetPath(other)[|AssetsPathPrefix|..];
    }
  }

  function AddCookie(r: Request, ck: Cookie): Request
  {
    r.(cookies := r.cookies + [ck])
  }

  /** Header.Set: the key now maps to this one value. */
  function SetHeader(r: Request, key: string, value: string): Request
  {
    r.(header := r.header[key := value])
  }

  /**
   newRequest: the session cookie is always attached, a JSON content type only
   when there is a body, then the anti-forgery token, the JSON Accept header and
   the identifying User-Agent header.
   */
  function NewRequest(c: Client, verb: string, path: string, body: Option<string>): (r: Request)
    ensures r.verb == verb && r.path == path && r.body == body
    ensures r.cookies == [Cookie(SessionCookieName, c.cookie)]
    ensures r.header.Keys == {"X-XSRF-TOKEN", "Accept", "User-Agent"} + (if body.Some? then {"Content-Type"} else {})
    ensures "Content-Type" in r.header <==> body.Some?
    ensures body.Some? ==> r.header["Content-Type"] == JsonMediaType
    ensures r.header["X-XSRF-TOKEN"] == c.xsrfToken
    ensures r.header["Accept"] == JsonMediaType
    ensures r.header["User-Agent"] == c.userAgent
  {
    var r0 := AddCookie(Request(verb, path, body, map[], []), Cookie(SessionCookieName, c.cookie));
    var r1 := if body.Some? then SetHeader(r0, "Content-Type", JsonMediaType) else r0;
    var r2 := SetHeader(r1, "X-XSRF-TOKEN", c.xsrfToken);
    var r3 := SetHeader(r2, "Accept", JsonMediaType);
    SetHeader(r3, "User-Agent", c.userAgent)
  }

  /** The request that fetches one asset's full record. */
  function DetailRequest(c: Client, asset: Asset): (r: Request)
    ensures r.verb == "GET" && r.path == AssetsPathPrefix + asset.id
    ensures r.body == None && "Content-Type" !in r.header
  {
    NewRequest(c, "GET", AssetPath(asset.id), None)
  }

  /** The request that replaces one asset's full record with `body`. */
  function UpdateRequest(c: Client, asset: Asset, body: string): (r: Request)
    ensures r.verb == "PUT" && r.path == AssetsPathPrefix + asset.id
    ensures r.body == Some(body) && "Content-Type" in r.header && r.header["Content-Type"] == JsonMediaType
  {
    NewRequest(c, "PUT", AssetPath(asset.id), Some(body))
  }

  /** The request that runs the inventory query document `query`. */
  function SearchRequest(c: Client, query: string): (r: Request)
    ensures r.verb == "POST" && r.path == SearchPath
    ensures r.body == Some(query) && "Content-Type" in r.header && r.header["Content-Type"] == JsonMediaType
  {
    NewRequest(c, "POST", SearchPath, Some(query))
  }

  /**
   do: a transport failure is passed on; a body that carries the
   unauthorized status marker is a fatal authentication failure whatever the
   status; otherwise a status other than 200 is an error whose text is the
   body; otherwise the body is the result, unchanged.
   */
  function Do(ex: Exchange): (r: Outcome)
    ensures r.TransportError? <==> ex.TransportFailure?
    ensures ex.TransportFailure? ==> r == TransportError(ex.reason)
    ensures r.AuthFailure? <==> ex.Received? && Occurs(ex.body, UnauthorizedMarker)
    ensures r.RequestFailed? <==> ex.Received? && !Occurs(ex.body, UnauthorizedMarker) && ex.statusCode != 200
    ensures r.RequestFailed? ==> r.message == ex.body
    ensures r.Success? <==> ex.Received? && !Occurs(ex.body, UnauthorizedMarker) && ex.statusCode == 200
    ensures r.Success? ==> r.body == ex.body
  {
    match ex
    case TransportFailure(reason) => TransportError(reason)
    case Received(status, body) =>
      ContainsIffOccurs(body, UnauthorizedMarker);
      if Contains(body, UnauthorizedMarker) then AuthFailure
      else if status != 200 then RequestFailed(body)
      else Success(body)
  }

  /**
   GetAssetDetailsWithChannel: fetch the asset's record from its path; any
   failure stops the process, a success pairs the record text with the asset.
   */
  function GetAssetDetails(c: Client, asset: Asset, transport: Request -> Exchange): (r: Step<AssetResult>)
    ensures r.Done? <==> Do(transport(DetailRequest(c, asset))).Success?
    ensures r.Done? ==> r.value.asset == asset && r.value.json == transport(DetailRequest(c, asset)).body
  {
    match Do(transport(DetailRequest(c, asset)))
    case Success(body) => Done(AssetResult(body, asset))
    case failure => Fatal(failure)
  }

  /**
   UpdateAssetDetailsWithChannel: put `body` to the asset's path; any failure
   stops the process, a success acknowledges the asset.
   */
  function UpdateAssetDetails(c: Client, asset: Asset, body: string, transport: Request -> Exchange): (r: Step<Asset>)
    ensures r.Done? <==> Do(transport(UpdateRequest(c, asset, body))).Success?
    ensures r.Done? ==> r.value == asset
  {
    match Do(transport(UpdateRequest(c, asset, body)))
    case Success(_) => Done(asset)
    case failure => Fatal(failure)
  }
}
