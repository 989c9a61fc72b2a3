/** TwigExtensions: the `asset` and `traduction` template functions. The translation table and
    the Accept-Language header are parameters. */
module TwigExtensions {
  import opened Php

  // ---------------------------------------------------------------------------------------
  // asset

  /** PHP's `ltrim($p, '/')`: drops every leading '/'. */
  function LTrimSlash(p: string): (r: string)
    ensures r == [] || r[0] != '/'
    ensures |r| <= |p| && r == p[|p| - |r|..]
    ensures forall i :: 0 <= i < |p| - |r| ==> p[i] == '/'
    decreases |p|
  {
    if p != [] && p[0] == '/' then
      var rest := LTrimSlash(p[1..]);
      assert p[1..][|p[1..]| - |rest|..] == p[|p| - |rest|..];
      rest
    else p
  }

  /** The public URL of a file under `assets/`. */
  function Asset(p: string): (r: string)
    ensures |r| >= 8 && r[..8] == "/assets/"
    ensures r[8..] == [] || r[8] != '/'
  {
    "/assets/" + LTrimSlash(p)
  }

  /** Leading slashes never change the URL. */
  lemma {:induction false} AssetIgnoresLeadingSlash(p: string)
    ensures Asset("/" + p) == Asset(p)
  {
    assert ("/" + p)[1..] == p;
  }

  /** A path that does not start with '/' is appended as it is. */
  lemma AssetKeepsRelativePath(p: string)
    requires p == [] || p[0] != '/'
    ensures Asset(p) == "/assets/" + p
  {
  }

  // ---------------------------------------------------------------------------------------
  // traduction

  /** `substr($accept, 0, 2)`; an absent header reads as null, which `substr` takes as "". */
  function PrimaryLanguage(acceptLanguage: Option<string>): (r: string)
    ensures |r| <= 2
  {
    match acceptLanguage
    case None => ""
    case Some(h) => if |h| >= 2 then h[..2] else h
  }

  /** The language used: the header's first two characters when they are "fr" or "en", "fr"
      otherwise. */
  function Language(acceptLanguage: Option<string>): (r: string)
    ensures r == "fr" || r == "en"
    ensures r == "en" <==> acceptLanguage.Some? && |acceptLanguage.value| >= 2 && acceptLanguage.value[..2] == "en"
  {
    var primary := PrimaryLanguage(acceptLanguage);
    if primary != "fr" && primary != "en" then "fr" else primary
  }

  /** TwigExtensions::traduction: the table's entry for the term in that language, or the term. */
  function Traduction(table: map<string, map<string, string>>, acceptLanguage: Option<string>, term: string): (r: string)
    ensures Language(acceptLanguage) in table && term in table[Language(acceptLanguage)] ==>
              r == table[Language(acceptLanguage)][term]
    ensures !(Language(acceptLanguage) in table && term in table[Language(acceptLanguage)]) ==> r == term
  {
    var lang := Language(acceptLanguage);
    if lang in table && term in table[lang] then table[lang][term] else term
  }

  /** Any header that does not start with "en" translates as French. */
  lemma FrenchIsTheFallback(table: map<string, map<string, string>>, acceptLanguage: Option<string>, term: string)
    requires !(acceptLanguage.Some? && |acceptLanguage.value| >= 2 && acceptLanguage.value[..2] == "en")
    ensures Traduction(table, acceptLanguage, term) == Traduction(table, Some("fr"), term)
  {
  }

  /** Only the first two characters of the header matter. */
  lemma {:induction false} OnlyThePrefixMatters(table: map<string, map<string, string>>, h: string, rest: string, term: string)
    requires |h| == 2
    ensures Traduction(table, Some(h + rest), term) == Traduction(table, Some(h), term)
  {
    assert (h + rest)[..2] == h;
  }
}
