/** The `origin` callback the server hands to its CORS middleware: requests without an origin
    and requests from the three listed origins are allowed, every other origin is refused. */
module Cors {
  import opened Base

  const AllowedOrigins: seq<string> := ["http://localhost:5173", "http://localhost:5174",
                                        "https://taskly-ecfs.onrender.com"]

  const RejectionMessage: string :=
    "The CORS policy for this site does not allow access from the specified Origin."

  /** What the callback is called with: an error, if any, and whether the origin is allowed. */
  datatype Decision = Decision(error: Option<string>, allow: bool)

  /** `list.indexOf(s)`: the first position of `s`, or -1. */
  function IndexOf(list: seq<string>, s: string): (i: int)
    ensures -1 <= i < |list|
    ensures i == -1 <==> s !in list
    ensures 0 <= i ==> list[i] == s && s !in list[..i]
  {
    if list == [] then -1
    else if list[0] == s then 0
    else
      var j := IndexOf(list[1..], s);
      if j == -1 then
        assert list == [list[0]] + list[1..];
        -1
      else
        assert list[..j + 1] == [list[0]] + list[1..][..j];
        j + 1
  }

  /** The callback: a missing or empty origin is falsy and allowed; a listed one is allowed;
      any other is refused with the error. */
  function OriginCallback(origin: Option<string>): Decision {
    if !Truthy(origin) then Decision(None, true)
    else if IndexOf(AllowedOrigins, origin.value) == -1 then Decision(Some(RejectionMessage), false)
    else Decision(None, true)
  }

  /** An origin is allowed exactly when it is missing, empty or listed word for word, and the
      error is given exactly when it is refused. */
  lemma OriginAllowedExactly(origin: Option<string>)
    ensures OriginCallback(origin).allow <==> origin.None? || origin.value == "" || origin.value in AllowedOrigins
    ensures OriginCallback(origin).error.Some? <==> !OriginCallback(origin).allow
    ensures OriginCallback(origin).error.Some? ==> OriginCallback(origin).error.value == RejectionMessage
  {
  }

  /** The comparison is exact: the listed origin with a trailing slash is refused. */
  lemma TrailingSlashRefused()
    ensures !OriginCallback(Some("http://localhost:5173/")).allow
  {
    var o := "http://localhost:5173/";
    assert o != AllowedOrigins[0] by { assert |o| != |AllowedOrigins[0]|; }
    assert o != AllowedOrigins[1] by { assert |o| != |AllowedOrigins[1]|; }
    assert o != AllowedOrigins[2] by { assert o[4] != AllowedOrigins[2][4]; }
  }
}
