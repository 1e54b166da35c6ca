/** `apiFetch`, the request wrapper both client pages use: the URL it builds from a path, the
    token it reads from local storage, the headers it sends and what it does with local storage
    when the answer is 401. The dashboard uses the base 'http://localhost:3000/api' and the review
    page the base '/api'; the two wrappers are otherwise the same. */
module ApiClient {
  import opened Common
  import opened Text

  const DashboardBase: string := "http://localhost:3000/api"
  const ReviewBase: string := "/api"

  /** A path that already starts with 'http' is used as it is; any other is appended to the base,
      with a '/' put in between when the path does not start with one. */
  function BuildUrl(base: string, path: string): (url: string)
    ensures StartsWith(path, "http") ==> url == path
    ensures !StartsWith(path, "http") ==> StartsWith(url, base + "/")
    ensures !StartsWith(path, "http") ==> |url| == |base| + |path| + (if StartsWith(path, "/") then 0 else 1)
    ensures |path| <= |url| && url[|url| - |path|..] == path
  {
    if StartsWith(path, "http") then path
    else if StartsWith(path, "/") then
      assert (base + path)[..|base| + 1] == base + "/";
      base + path
    else
      assert (base + "/" + path)[..|base| + 1] == base + "/";
      base + "/" + path
  }

  /** Whether a path has a leading '/' makes no difference to the URL. */
  lemma LeadingSlashIsOptional(base: string, path: string)
    requires !StartsWith(path, "http") && !StartsWith(path, "/")
    ensures BuildUrl(base, "/" + path) == BuildUrl(base, path)
  {
    assert !StartsWith("/" + path, "http") by {
      assert ("/" + path)[0] == '/';
    }
    assert StartsWith("/" + path, "/") by {
      assert ("/" + path)[..1] == "/";
    }
    assert base + ("/" + path) == base + "/" + path;
  }

  /** The local-storage key names a token may be stored under, in the order they are tried. */
  const TokenKeys: seq<string> := ["authToken", "token", "accessToken"]

  /** A stored value JavaScript treats as true: present and not empty. */
  predicate Stored(storage: map<string, string>, key: string) {
    key in storage && storage[key] != ""
  }

  /** `getAuthToken`: the value under the first key of `TokenKeys` that holds one. */
  function GetAuthToken(storage: map<string, string>): (r: Option<string>)
    ensures r.None? <==> forall k :: 0 <= k < |TokenKeys| ==> !Stored(storage, TokenKeys[k])
    ensures r.Some? ==> exists k :: (0 <= k < |TokenKeys| && Stored(storage, TokenKeys[k]) && r.value == storage[TokenKeys[k]]
                                     && forall j :: 0 <= j < k ==> !Stored(storage, TokenKeys[j]))
  {
    if Stored(storage, "authToken") then
      assert TokenKeys[0] == "authToken";
      Some(storage["authToken"])
    else if Stored(storage, "token") then
      assert TokenKeys[1] == "token";
      Some(storage["token"])
    else if Stored(storage, "accessToken") then
      assert TokenKeys[2] == "accessToken";
      Some(storage["accessToken"])
    else None
  }

  /** The body of a request. */
  datatype Body = NoBody | Text(text: string) | FormData

  /** `options.body` as a JavaScript condition: an empty string is false. */
  predicate HasBody(b: Body) {
    b.FormData? || (b.Text? && b.text != "")
  }

  /** The headers sent. Header names are stored lower-case, as the Headers object does, so
      'Content-Type' is the entry "content-type". A token sets 'authorization' to 'Bearer '
      followed by the token; 'content-type' is set to JSON only for a non-empty body that is not
      form data and only when the caller gave none; everything else is as given. */
  function BuildHeaders(given: map<string, string>, token: Option<string>, body: Body): (h: map<string, string>)
    ensures token.Some? && token.value != "" ==> "authorization" in h && h["authorization"] == "Bearer " + token.value
    ensures !(token.Some? && token.value != "") ==>
      ("authorization" in h <==> "authorization" in given) && ("authorization" in given ==> h["authorization"] == given["authorization"])
    ensures "content-type" in given ==> "content-type" in h && h["content-type"] == given["content-type"]
    ensures "content-type" !in given ==>
      ("content-type" in h <==> HasBody(body) && !body.FormData?) && ("content-type" in h ==> h["content-type"] == "application/json")
    ensures forall k :: k != "authorization" && k != "content-type" ==> (k in h <==> k in given)
    ensures forall k :: k in given && k != "authorization" && k != "content-type" ==> h[k] == given[k]
  {
    var withAuth := if token.Some? && token.value != "" then given["authorization" := "Bearer " + token.value] else given;
    if HasBody(body) && !body.FormData? && "content-type" !in withAuth then withAuth["content-type" := "application/json"]
    else withAuth
  }

  /** A request as handed to `fetch`. */
  datatype Request = Request(url: string, headers: map<string, string>, body: Body)

  /** The request `apiFetch(path, { headers, body })` sends, given what local storage holds. */
  function Prepare(base: string, storage: map<string, string>, path: string, given: map<string, string>, body: Body): (r: Request)
    ensures r.url == BuildUrl(base, path) && r.body == body
    ensures ("authorization" in r.headers && r.headers["authorization"] == "Bearer " + GetAuthToken(storage).value) <== GetAuthToken(storage).Some?
  {
    var token := GetAuthToken(storage);
    Request(BuildUrl(base, path), BuildHeaders(given, token, body), body)
  }

  /** What the wrapper does to local storage once the answer arrives: a 401 removes every token
      key, any other status leaves storage alone. */
  function AfterResponse(storage: map<string, string>, status: int): (s: map<string, string>)
    ensures status != 401 ==> s == storage
    ensures status == 401 ==> forall k :: 0 <= k < |TokenKeys| ==> TokenKeys[k] !in s
    ensures forall key :: key in storage && !(status == 401 && key in TokenKeys) ==> key in s && s[key] == storage[key]
    ensures forall key :: key in s ==> key in storage
  {
    if status == 401 then storage - {"authToken", "token", "accessToken"} else storage
  }

  /** After a 401 no token is found any more, so the next request goes out without one. */
  lemma LoggedOutAfter401(storage: map<string, string>, base: string, path: string, given: map<string, string>, body: Body)
    requires "authorization" !in given
    ensures GetAuthToken(AfterResponse(storage, 401)).None?
    ensures "authorization" !in Prepare(base, AfterResponse(storage, 401), path, given, body).headers
  {
    var s := AfterResponse(storage, 401);
    assert forall k :: 0 <= k < |TokenKeys| ==> !Stored(s, TokenKeys[k]);
  }
}
