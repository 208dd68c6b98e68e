/** The part of an HTTP request the authentication layer reads: its header list and its cookies. */
module Requests {
  import opened Wrappers

  /** Headers in the order they arrived; cookies by name. */
  datatype Request = Request(headers: seq<(string, string)>, cookies: map<string, string>)

  /** ASCII lower-casing of one character; every other character is left alone. */
  function LowerChar(c: char): (r: char)
    ensures 'A' <= c <= 'Z' ==> r as int == c as int + 32
    ensures !('A' <= c <= 'Z') ==> r == c
  {
    if 'A' <= c <= 'Z' then (c as int + 32) as char else c
  }

  function Lower(s: string): (r: string)
    ensures |r| == |s|
    ensures forall i :: 0 <= i < |s| ==> r[i] == LowerChar(s[i])
  {
    if s == [] then [] else [LowerChar(s[0])] + Lower(s[1..])
  }

  /**
   * The value of the first header whose name equals `name` up to ASCII case,
   * or None when no header has that name.
   */
  function HeaderGet(headers: seq<(string, string)>, name: string): (r: Option<string>)
    ensures r.None? <==> forall i :: 0 <= i < |headers| ==> Lower(headers[i].0) != Lower(name)
    ensures r.Some? ==> exists i :: 0 <= i < |headers| && Lower(headers[i].0) == Lower(name)
                                   && r.value == headers[i].1
                                   && forall j :: 0 <= j < i ==> Lower(headers[j].0) != Lower(name)
  {
    if headers == [] then None
    else if Lower(headers[0].0) == Lower(name) then Some(headers[0].1)
    else
      var r := HeaderGet(headers[1..], name);
      assert forall i :: 1 <= i < |headers| ==> headers[i] == headers[1..][i - 1];
      r
  }

  /** The value of the cookie called `name`, or None. */
  function CookieGet(request: Request, name: string): (r: Option<string>)
    ensures r.Some? <==> name in request.cookies
    ensures r.Some? ==> r.value == request.cookies[name]
  {
    if name in request.cookies then Some(request.cookies[name]) else None
  }
}
