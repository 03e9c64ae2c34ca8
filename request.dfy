/** The request side of the tweet lookup: the cookie parser `getCookie` and
    the headers and query variables `fetchTweetData` sends with its request. */
module Request {
  import opened Wrappers
  import opened JsText

  /** The TweetDetail GraphQL endpoint the lookup queries. */
  const Endpoint := "https://x.com/i/api/graphql/QuBlQ6SxNAQCt6-kBiCXCQ/TweetDetail"

  /** The fixed, public bearer credential that identifies the web client. */
  const BearerToken := "Bearer AAAAAAAAAAAAAAAAAAAAANRILgAAAAAAnNwIzUejRCOuH5E6I8xnZz4puTs%3D1Zv7ttfk8LF81IUq16cHjhLTvJu4FA33AGWWjCpTnA"

  /** The `;`-separated pieces of a cookie string. */
  function Pieces(cookie: string): seq<string> {
    Split(cookie, ';')
  }

  /** A `name=value` piece once the `reduce` callback has destructured it. */
  datatype Piece = Piece(name: string, value: Option<string>)

  /** What the callback makes of one piece: the name is its text before the
      first `=`, trimmed; the value is its text between the first and the
      second `=`, trimmed (destructuring keeps only two parts), or `undefined`
      when the piece has no `=` at all. */
  function ParsePiece(piece: string): (p: Piece)
    ensures '=' !in p.name && (p.name == [] || (!IsSpace(p.name[0]) && !IsSpace(p.name[|p.name| - 1])))
    ensures p.value.None? <==> '=' !in piece
    ensures p.value.Some? ==>
      '=' !in p.value.value
      && (p.value.value == [] || (!IsSpace(p.value.value[0]) && !IsSpace(p.value.value[|p.value.value| - 1])))
  {
    var parts := Split(piece, '=');
    Piece(Trim(parts[0]), if |parts| >= 2 then Some(Trim(parts[1])) else None)
  }

  /** A piece written as `name=value`, with white space of any length around
      the name and the value (`document.cookie` puts a space after each `;`),
      parses to that name and value, trimmed. */
  lemma ParsePieceOfPair(w1: string, name: string, w2: string, w3: string, value: string, w4: string)
    requires AllSpace(w1) && AllSpace(w2) && AllSpace(w3) && AllSpace(w4)
    requires '=' !in name && '=' !in value
    requires name == [] || (!IsSpace(name[0]) && !IsSpace(name[|name| - 1]))
    requires value == [] || (!IsSpace(value[0]) && !IsSpace(value[|value| - 1]))
    ensures ParsePiece(w1 + name + w2 + "=" + w3 + value + w4) == Piece(name, Some(value))
  {
    var left, right := w1 + name + w2, w3 + value + w4;
    assert '=' !in left by {
      forall k | 0 <= k < |left| ensures left[k] != '=' {
        if k < |w1| { assert left[k] == w1[k]; }
        else if k < |w1| + |name| { assert left[k] == name[k - |w1|]; }
        else { assert left[k] == w2[k - |w1| - |name|]; }
      }
    }
    assert '=' !in right by {
      forall k | 0 <= k < |right| ensures right[k] != '=' {
        if k < |w3| { assert right[k] == w3[k]; }
        else if k < |w3| + |value| { assert right[k] == value[k - |w3|]; }
        else { assert right[k] == w4[k - |w3| - |value|]; }
      }
    }
    assert Join([left, right], '=') == w1 + name + w2 + "=" + w3 + value + w4;
    SplitJoin([left, right], '=');
    TrimPadded(w1, name, w2);
    TrimPadded(w3, value, w4);
  }

  /** A value that itself contains `=` is cut at its first `=`: only the text
      between the first two `=` of the piece is kept. */
  lemma ParsePieceCutsAtSecondEquals(name: string, value: string, more: string)
    requires '=' !in name && '=' !in value && '=' !in more
    requires name == [] || (!IsSpace(name[0]) && !IsSpace(name[|name| - 1]))
    requires value == [] || (!IsSpace(value[0]) && !IsSpace(value[|value| - 1]))
    ensures ParsePiece(name + "=" + value + "=" + more) == Piece(name, Some(value))
  {
    assert [name, value, more][1..] == [value, more];
    assert Join([value, more], '=') == value + "=" + more;
    assert Join([name, value, more], '=') == name + "=" + value + "=" + more;
    SplitJoin([name, value, more], '=');
    TrimOfTrimmed(name);
    TrimOfTrimmed(value);
  }

  /** The destructured pieces of a cookie string, in order. */
  function Parsed(cookie: string): (ps: seq<Piece>)
    ensures |ps| == |Pieces(cookie)|
  {
    seq(|Pieces(cookie)|, i requires 0 <= i < |Pieces(cookie)| => ParsePiece(Pieces(cookie)[i]))
  }

  /** The dictionary that the `reduce` accumulates: each piece, left to
      right, stores its value under its name. */
  function Jar(ps: seq<Piece>): (jar: map<string, Option<string>>)
    ensures jar.Keys == set i | 0 <= i < |ps| :: ps[i].name
  {
    if ps == [] then map[]
    else
      var last := ps[|ps| - 1];
      var prefix := ps[..|ps| - 1];
      var jar := Jar(prefix)[last.name := last.value];
      assert jar.Keys == (set i | 0 <= i < |prefix| :: prefix[i].name) + {last.name};
      jar
  }

  /** The value of the last piece with a given name is the one the dictionary
      keeps: later pieces overwrite earlier ones. */
  lemma {:induction false} JarLastWins(ps: seq<Piece>, i: nat)
    requires i < |ps|
    requires forall j :: i < j < |ps| ==> ps[j].name != ps[i].name
    ensures ps[i].name in Jar(ps) && Jar(ps)[ps[i].name] == ps[i].value
  {
    var n := |ps|;
    if i < n - 1 {
      var prefix := ps[..n - 1];
      assert prefix[i] == ps[i];
      forall j | i < j < |prefix| ensures prefix[j].name != prefix[i].name {
        assert prefix[j] == ps[j];
      }
      JarLastWins(prefix, i);
    }
  }

  /** JavaScript's `v || fallback` on a cookie value: `undefined` and the empty
      string both fall back. */
  function Or(v: Option<string>, fallback: string): string {
    if v.Some? && v.value != "" then v.value else fallback
  }

  /** The two cookies the lookup needs. */
  datatype Cookies = Cookies(lang: string, ct0: string)

  /** `getCookie()` applied to the page's cookie string: the interface
      language (default `en`) and the CSRF token (default empty). */
  function GetCookie(cookie: string): (c: Cookies)
    ensures c.lang != ""
  {
    FromJar(Jar(Parsed(cookie)))
  }

  /** The object `getCookie` returns, read off the dictionary. */
  function FromJar(jar: map<string, Option<string>>): Cookies {
    Cookies(Or(if "lang" in jar then jar["lang"] else None, "en"),
            Or(if "ct0" in jar then jar["ct0"] else None, ""))
  }

  /** A name that no piece carries is not a key of the dictionary. */
  lemma JarAbsent(ps: seq<Piece>, name: string)
    requires forall i :: 0 <= i < |ps| ==> ps[i].name != name
    ensures name !in Jar(ps)
  {
  }

  /** With no piece named `lang` (or `ct0`), `getCookie` falls back to `en`
      (or the empty token). */
  lemma GetCookieAbsent(cookie: string)
    ensures (forall i :: 0 <= i < |Pieces(cookie)| ==> Parsed(cookie)[i].name != "lang")
            ==> GetCookie(cookie).lang == "en"
    ensures (forall i :: 0 <= i < |Pieces(cookie)| ==> Parsed(cookie)[i].name != "ct0")
            ==> GetCookie(cookie).ct0 == ""
  {
    var ps := Parsed(cookie);
    assert GetCookie(cookie) == FromJar(Jar(ps));
    if forall i :: 0 <= i < |ps| ==> ps[i].name != "lang" {
      JarAbsent(ps, "lang");
    }
    if forall i :: 0 <= i < |ps| ==> ps[i].name != "ct0" {
      JarAbsent(ps, "ct0");
    }
  }

  /** When piece `i` is the last one named `lang` (or `ct0`), `getCookie`
      returns its value, or the default when that value is missing or empty. */
  lemma GetCookieLastPiece(cookie: string, i: nat)
    requires i < |Pieces(cookie)|
    requires forall j :: i < j < |Pieces(cookie)| ==> Parsed(cookie)[j].name != Parsed(cookie)[i].name
    ensures Parsed(cookie)[i].name == "lang" ==> GetCookie(cookie).lang == Or(Parsed(cookie)[i].value, "en")
    ensures Parsed(cookie)[i].name == "ct0" ==> GetCookie(cookie).ct0 == Or(Parsed(cookie)[i].value, "")
  {
    JarLastWins(Parsed(cookie), i);
  }

  /** The parsed pieces of a cookie string are the parses of its pieces. */
  lemma ParsedOfPieces(cookie: string, pieces: seq<string>)
    requires Pieces(cookie) == pieces
    ensures Parsed(cookie) == seq(|pieces|, i requires 0 <= i < |pieces| => ParsePiece(pieces[i]))
  {
  }

  predicate IsCookieValue(v: string) {
    ';' !in v && '=' !in v && (v == [] || (!IsSpace(v[0]) && !IsSpace(v[|v| - 1])))
  }

  lemma TwoPieces(token: string, lang: string)
    requires IsCookieValue(token) && IsCookieValue(lang)
    ensures Pieces("ct0=" + token + "; lang=" + lang) == ["ct0=" + token, " lang=" + lang]
  {
    var p1, p2 := "ct0=" + token, " lang=" + lang;
    assert ';' !in p1 by {
      forall k | 0 <= k < |p1| ensures p1[k] != ';' {
        if k >= 4 { assert p1[k] == token[k - 4]; }
      }
    }
    assert ';' !in p2 by {
      forall k | 0 <= k < |p2| ensures p2[k] != ';' {
        if k >= 6 { assert p2[k] == lang[k - 6]; }
      }
    }
    assert Join([p1, p2], ';') == "ct0=" + token + "; lang=" + lang;
    SplitJoin([p1, p2], ';');
  }

  lemma CsrfPiece(token: string)
    requires IsCookieValue(token)
    ensures ParsePiece("ct0=" + token) == Piece("ct0", Some(token))
  {
    assert "" + "ct0" + "" + "=" + "" + token + "" == "ct0=" + token;
    ParsePieceOfPair("", "ct0", "", "", token, "");
  }

  lemma LangPiece(lang: string)
    requires IsCookieValue(lang)
    ensures ParsePiece(" lang=" + lang) == Piece("lang", Some(lang))
  {
    assert " " + "lang" + "" + "=" + "" + lang + "" == " lang=" + lang;
    ParsePieceOfPair(" ", "lang", "", "", lang, "");
  }

  lemma TwoPiecesParsed(token: string, lang: string)
    requires IsCookieValue(token) && IsCookieValue(lang)
    ensures Parsed("ct0=" + token + "; lang=" + lang) == [Piece("ct0", Some(token)), Piece("lang", Some(lang))]
  {
    TwoPieces(token, lang);
    ParsedOfPieces("ct0=" + token + "; lang=" + lang, ["ct0=" + token, " lang=" + lang]);
    CsrfPiece(token);
    LangPiece(lang);
  }

  /** A cookie string `ct0={token}; lang={lang}`, as `document.cookie`
      writes it, gives that token and that language, or `en` when the
      language is empty. */
  lemma GetCookieOfTwo(token: string, lang: string)
    requires IsCookieValue(token) && IsCookieValue(lang)
    ensures GetCookie("ct0=" + token + "; lang=" + lang) == Cookies(if lang != "" then lang else "en", token)
  {
    var ps := [Piece("ct0", Some(token)), Piece("lang", Some(lang))];
    TwoPiecesParsed(token, lang);
    JarLastWins(ps, 0);
    JarLastWins(ps, 1);
    assert GetCookie("ct0=" + token + "; lang=" + lang) == FromJar(Jar(ps));
  }

  /** What `fetchTweetData` sends: the endpoint, the `focalTweetId` of the
      `variables` parameter, and the request headers. The rest of the query
      string is a fixed serialisation of constant flag sets. */
  datatype TweetDetailRequest = TweetDetailRequest(
    endpoint: string,
    focalTweetId: string,
    headers: map<string, string>)

  function RequestHeaders(c: Cookies): (h: map<string, string>)
    ensures h.Keys == {"authorization", "x-twitter-active-user", "x-twitter-client-language", "x-csrf-token"}
    ensures h["x-twitter-client-language"] == c.lang && h["x-csrf-token"] == c.ct0
    ensures h["authorization"] == BearerToken && h["x-twitter-active-user"] == "yes"
  {
    map[
      "authorization" := BearerToken,
      "x-twitter-active-user" := "yes",
      "x-twitter-client-language" := c.lang,
      "x-csrf-token" := c.ct0
    ]
  }

  function BuildRequest(tweetId: string, cookie: string): (r: TweetDetailRequest)
    ensures r.endpoint == Endpoint && r.focalTweetId == tweetId
    ensures r.headers.Keys == {"authorization", "x-twitter-active-user", "x-twitter-client-language", "x-csrf-token"}
    ensures r.headers["x-twitter-client-language"] == GetCookie(cookie).lang != ""
    ensures r.headers["x-csrf-token"] == GetCookie(cookie).ct0
    ensures r.headers["authorization"] == BearerToken && r.headers["x-twitter-active-user"] == "yes"
  {
    var c := GetCookie(cookie);
    TweetDetailRequest(Endpoint, tweetId, RequestHeaders(c))
  }

  /** The language and CSRF headers come from the last `lang` and `ct0`
      pieces of the cookie string, with `en` and the empty token when those
      are absent or empty. */
  lemma RequestHeadersFromCookie(tweetId: string, cookie: string, i: nat)
    requires i < |Pieces(cookie)|
    requires forall j :: i < j < |Pieces(cookie)| ==> Parsed(cookie)[j].name != Parsed(cookie)[i].name
    ensures Parsed(cookie)[i].name == "lang" ==>
      BuildRequest(tweetId, cookie).headers["x-twitter-client-language"] == Or(Parsed(cookie)[i].value, "en")
    ensures Parsed(cookie)[i].name == "ct0" ==>
      BuildRequest(tweetId, cookie).headers["x-csrf-token"] == Or(Parsed(cookie)[i].value, "")
  {
    GetCookieLastPiece(cookie, i);
  }

  /** A cookie string with no `ct0` piece yields an empty CSRF header. */
  lemma RequestWithoutCsrfCookie(tweetId: string, cookie: string)
    requires forall i :: 0 <= i < |Pieces(cookie)| ==> Parsed(cookie)[i].name != "ct0"
    ensures BuildRequest(tweetId, cookie).headers["x-csrf-token"] == ""
  {
    GetCookieAbsent(cookie);
  }
}
