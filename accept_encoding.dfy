/**
 * `accept_encoding::parse`: reduce the `Accept-Encoding` request header to
 * one of three encodings, to "no encoding" when the header is absent, or to
 * one of two errors.
 *
 * The selection is a fixed-priority substring test on the header text,
 * not the token and quality-value grammar of section 12.5.3 of RFC 9110:
 * "br" anywhere wins, then "deflate", then "gzip".
 */
module AcceptEncoding {
  import opened Wrappers
  import opened Substring
  import opened Http

  /** Encoding levels; each variant names the best encoding found. */
  datatype Encoding = Gzip | Deflate | Brotli | None
  {
    predicate IsGzip() { Gzip? }
    predicate IsDeflate() { Deflate? }
    predicate IsBrotli() { Brotli? }
    predicate IsNone() { None? }
  }

  /** Why `parse` fails. */
  datatype ErrorKind =
    | InvalidEncoding   // the header value is not readable text
    | UnknownEncoding   // the text names none of the three encodings

  /** The field name `parse` looks up (the map stores names in lower case). */
  const ACCEPT_ENCODING: string := "accept-encoding"

  /** Exactly one of the variant predicates holds of each encoding. */
  lemma ExactlyOneVariant(e: Encoding)
    ensures e.IsGzip() || e.IsDeflate() || e.IsBrotli() || e.IsNone()
    ensures !(e.IsGzip() && e.IsDeflate()) && !(e.IsGzip() && e.IsBrotli()) && !(e.IsGzip() && e.IsNone())
    ensures !(e.IsDeflate() && e.IsBrotli()) && !(e.IsDeflate() && e.IsNone()) && !(e.IsBrotli() && e.IsNone())
  {
  }

  /**
   * The `if`/`else if` chain of `parse` over readable header text: the first
   * of "br", "deflate", "gzip" that occurs in it decides; if none occurs,
   * the encoding is unknown. A readable header never yields `None` and
   * never `InvalidEncoding`.
   */
  function Select(text: string): (r: Result<Encoding, ErrorKind>)
    ensures r == Ok(Brotli) <==> Occurs(text, "br")
    ensures r == Ok(Deflate) <==> !Occurs(text, "br") && Occurs(text, "deflate")
    ensures r == Ok(Gzip) <==> !Occurs(text, "br") && !Occurs(text, "deflate") && Occurs(text, "gzip")
    ensures r == Err(UnknownEncoding) <==>
              !Occurs(text, "br") && !Occurs(text, "deflate") && !Occurs(text, "gzip")
    ensures r != Ok(Encoding.None) && r != Err(InvalidEncoding)
  {
    ContainsOccurs(text, "br");
    ContainsOccurs(text, "deflate");
    ContainsOccurs(text, "gzip");
    if Contains(text, "br") then Ok(Brotli)
    else if Contains(text, "deflate") then Ok(Deflate)
    else if Contains(text, "gzip") then Ok(Gzip)
    else Err(UnknownEncoding)
  }

  /** An `Accept-Encoding` field is present and its (first) value reads as text. */
  predicate Readable(headers: HeaderMap)
  {
    var h := Get(headers, ACCEPT_ENCODING);
    h.Some? && ToStr(h.value).Ok?
  }

  /** The first `Accept-Encoding` value reads as text and `name` occurs in it. */
  ghost predicate Mentions(headers: HeaderMap, name: string)
  {
    Readable(headers) && Occurs(ToStr(Get(headers, ACCEPT_ENCODING).value).value, name)
  }

  /**
   * `parse`: the outcome for every header map. No `Accept-Encoding` field
   * means `None` (and only that does); an unreadable first value is
   * `InvalidEncoding` whatever its bytes spell; otherwise "br", "deflate",
   * "gzip" are tried in that order, and `UnknownEncoding` if none occurs.
   */
  function Parse(headers: HeaderMap): (r: Result<Encoding, ErrorKind>)
    ensures r == Ok(Encoding.None) <==> forall k :: 0 <= k < |headers.fields| ==> headers.fields[k].0 != ACCEPT_ENCODING
    ensures r == Err(InvalidEncoding) <==> Get(headers, ACCEPT_ENCODING).Some? && !Readable(headers)
    ensures r == Ok(Brotli) <==> Mentions(headers, "br")
    ensures r == Ok(Deflate) <==> !Mentions(headers, "br") && Mentions(headers, "deflate")
    ensures r == Ok(Gzip) <==> !Mentions(headers, "br") && !Mentions(headers, "deflate") && Mentions(headers, "gzip")
    ensures r == Err(UnknownEncoding) <==>
              Readable(headers) && !Mentions(headers, "br") && !Mentions(headers, "deflate") && !Mentions(headers, "gzip")
  {
    match Get(headers, ACCEPT_ENCODING)
    case None => Ok(Encoding.None)
    case Some(header) =>
      match ToStr(header)
      case Err(_) => Err(InvalidEncoding)
      case Ok(text) => Select(text)
  }

  /** Only the first `Accept-Encoding` field is consulted: fields added after it change nothing. */
  lemma LaterFieldsIgnored(headers: HeaderMap, more: seq<(string, HeaderValue)>)
    requires Get(headers, ACCEPT_ENCODING).Some?
    ensures Parse(HeaderMap(headers.fields + more)) == Parse(headers)
  {
    GetIgnoresLaterFields(headers, more, ACCEPT_ENCODING);
  }

  /** The outcome for readable text depends only on which of the three names occur in it. */
  lemma SelectDependsOnlyOnNames(s: string, t: string)
    requires Occurs(s, "br") == Occurs(t, "br")
    requires Occurs(s, "deflate") == Occurs(t, "deflate")
    requires Occurs(s, "gzip") == Occurs(t, "gzip")
    ensures Select(s) == Select(t)
  {
  }

  /** Text none of whose characters is a letter of "br", "deflate" or "gzip". */
  predicate Inert(s: string)
  {
    forall k :: 0 <= k < |s| ==> s[k] !in "brdeflatgzip"
  }

  lemma InertAvoidsNames(s: string)
    requires Inert(s)
    ensures Avoids(s, "br") && Avoids(s, "deflate") && Avoids(s, "gzip")
  {
  }

  /** Inert text in front of or behind a non-inert part can neither create nor hide a name. */
  lemma OccursPadded(pre: string, t: string, post: string, name: string)
    requires |name| > 0 && Avoids(pre, name) && Avoids(post, name)
    ensures Occurs(pre + t + post, name) <==> Occurs(t, name)
  {
    AvoidingNeverOccurs(pre, name);
    AvoidingNeverOccurs(post, name);
    if |pre| > 0 {
      OccursConcat(pre, t, name);
    } else {
      assert pre + t == t;
    }
    if |post| > 0 {
      OccursConcat(pre + t, post, name);
    } else {
      assert pre + t + post == pre + t;
    }
  }

  /**
   * Whitespace, commas, parameters and the like around the text do not
   * change the outcome, as long as they contain no letter of the three names.
   */
  lemma PaddingIgnored(pre: string, t: string, post: string)
    requires Inert(pre) && Inert(post)
    ensures Select(pre + t + post) == Select(t)
  {
    InertAvoidsNames(pre);
    InertAvoidsNames(post);
    OccursPadded(pre, t, post, "br");
    OccursPadded(pre, t, post, "deflate");
    OccursPadded(pre, t, post, "gzip");
  }

  /** Characters that make up a decimal quality value. */
  predicate IsQValueText(w: string)
  {
    forall k :: 0 <= k < |w| ==> w[k] in "0123456789."
  }

  /** A `;q=` quality value at the end of the text never changes the outcome, even `q=0`. */
  lemma QValueIgnored(t: string, w: string)
    requires IsQValueText(w)
    ensures Select(t + ";q=" + w) == Select(t)
  {
    assert Inert(";q=" + w);
    PaddingIgnored("", t, ";q=" + w);
    assert "" + t + (";q=" + w) == t + ";q=" + w;
  }

  /** Each token `ts[k]` with the quality value `;q=` + `ws[k]` attached. */
  function WithQ(ts: seq<string>, ws: seq<string>): (r: seq<string>)
    requires |ts| == |ws|
    ensures |r| == |ts|
    ensures forall k :: 0 <= k < |ts| ==> r[k] == ts[k] + ";q=" + ws[k]
  {
    seq(|ts|, k requires 0 <= k < |ts| => ts[k] + ";q=" + ws[k])
  }

  /** A quality value after one token neither creates nor hides one of the names. */
  lemma OccursWithQ(t: string, w: string, name: string)
    requires IsQValueText(w) && name in ["br", "deflate", "gzip"]
    ensures Occurs(t + ";q=" + w, name) <==> Occurs(t, name)
  {
    assert Inert(";q=" + w);
    InertAvoidsNames(";q=" + w);
    OccursPadded("", t, ";q=" + w, name);
    assert "" + t + (";q=" + w) == t + ";q=" + w;
  }

  /** Attaching quality values to the tokens of a list does not change whether a name occurs in it. */
  lemma OccursJoinWithQ(ts: seq<string>, ws: seq<string>, sep: string, name: string)
    requires |ts| == |ws| && forall k :: 0 <= k < |ws| ==> IsQValueText(ws[k])
    requires |sep| > 0 && Inert(sep) && name in ["br", "deflate", "gzip"]
    ensures Occurs(Join(WithQ(ts, ws), sep), name) <==> Occurs(Join(ts, sep), name)
  {
    var qs := WithQ(ts, ws);
    InertAvoidsNames(sep);
    forall k | 0 <= k < |ts|
      ensures Occurs(qs[k], name) <==> Occurs(ts[k], name)
    {
      OccursWithQ(ts[k], ws[k], name);
    }
    OccursJoin(qs, sep, name);
    OccursJoin(ts, sep, name);
  }

  /**
   * A list whose tokens each carry their own quality value gives the same
   * outcome as the bare tokens: "gzip;q=0.5, br;q=0.9" is "gzip, br".
   */
  lemma QValuesIgnored(ts: seq<string>, ws: seq<string>, sep: string)
    requires |ts| == |ws| && forall k :: 0 <= k < |ws| ==> IsQValueText(ws[k])
    requires |sep| > 0 && Inert(sep)
    ensures Select(Join(WithQ(ts, ws), sep)) == Select(Join(ts, sep))
  {
    OccursJoinWithQ(ts, ws, sep, "br");
    OccursJoinWithQ(ts, ws, sep, "deflate");
    OccursJoinWithQ(ts, ws, sep, "gzip");
  }

  /** Each token `ts[k]` with the parameter text `ps[k]` (possibly empty) attached. */
  function WithParams(ts: seq<string>, ps: seq<string>): (r: seq<string>)
    requires |ts| == |ps|
    ensures |r| == |ts|
    ensures forall k :: 0 <= k < |ts| ==> r[k] == ts[k] + ps[k]
  {
    seq(|ts|, k requires 0 <= k < |ts| => ts[k] + ps[k])
  }

  /** Attaching inert parameters to some tokens of a list does not change whether a name occurs in it. */
  lemma OccursJoinParams(ts: seq<string>, ps: seq<string>, sep: string, name: string)
    requires |ts| == |ps| && forall k :: 0 <= k < |ps| ==> Inert(ps[k])
    requires |sep| > 0 && Inert(sep) && name in ["br", "deflate", "gzip"]
    ensures Occurs(Join(WithParams(ts, ps), sep), name) <==> Occurs(Join(ts, sep), name)
  {
    var qs := WithParams(ts, ps);
    InertAvoidsNames(sep);
    forall k | 0 <= k < |ts|
      ensures Occurs(qs[k], name) <==> Occurs(ts[k], name)
    {
      InertAvoidsNames(ps[k]);
      OccursPadded("", ts[k], ps[k], name);
      assert "" + ts[k] + ps[k] == qs[k];
    }
    OccursJoin(qs, sep, name);
    OccursJoin(ts, sep, name);
  }

  /**
   * Any tokens of a list may carry parameters, each its own or none, and the
   * outcome is that of the bare tokens, as long as the parameters hold no
   * letter of the three names (`;q=0.5`, `;q=1`, `;q=0`, or nothing).
   */
  lemma ParamsIgnored(ts: seq<string>, ps: seq<string>, sep: string)
    requires |ts| == |ps| && forall k :: 0 <= k < |ps| ==> Inert(ps[k])
    requires |sep| > 0 && Inert(sep)
    ensures Select(Join(WithParams(ts, ps), sep)) == Select(Join(ts, sep))
  {
    OccursJoinParams(ts, ps, sep, "br");
    OccursJoinParams(ts, ps, sep, "deflate");
    OccursJoinParams(ts, ps, sep, "gzip");
  }

  /** A quality value on only some tokens: "gzip;q=0.5, br" gives the same as "gzip, br". */
  lemma MixedQValuesExample()
    ensures Select("gzip;q=0.5, br") == Select("gzip, br")
  {
    var ts, ps := ["gzip", "br"], [";q=0.5", ""];
    assert Inert(ps[0]) && Inert(ps[1]) && Inert(", ");
    ParamsIgnored(ts, ps, ", ");
    var qs := WithParams(ts, ps);
    assert qs[0] == "gzip" + ";q=0.5" == "gzip;q=0.5";
    assert qs[1] == "br" + "" == "br";
    assert qs == ["gzip;q=0.5", "br"];
    assert Join(["gzip;q=0.5", "br"], ", ") == "gzip;q=0.5, br";
    assert Join(ts, ", ") == "gzip, br";
  }

  /**
   * Listing the same tokens in another order, with any separator that holds
   * no letter of the three names, gives the same outcome.
   */
  lemma TokenOrderIgnored(ts: seq<string>, us: seq<string>, sep: string)
    requires multiset(ts) == multiset(us)
    requires |sep| > 0 && Inert(sep)
    ensures Select(Join(ts, sep)) == Select(Join(us, sep))
  {
    InertAvoidsNames(sep);
    OccursJoinReordered(ts, us, sep, "br");
    OccursJoinReordered(ts, us, sep, "deflate");
    OccursJoinReordered(ts, us, sep, "gzip");
  }

  /**
   * Which separator stands between the tokens does not matter either, as
   * long as it is non-empty and holds no letter of the three names
   * (", ", ",", " " and so on).
   */
  lemma SeparatorIgnored(ts: seq<string>, sep1: string, sep2: string)
    requires |sep1| > 0 && Inert(sep1) && |sep2| > 0 && Inert(sep2)
    ensures Select(Join(ts, sep1)) == Select(Join(ts, sep2))
  {
    InertAvoidsNames(sep1);
    InertAvoidsNames(sep2);
    OccursJoin(ts, sep1, "br");
    OccursJoin(ts, sep2, "br");
    OccursJoin(ts, sep1, "deflate");
    OccursJoin(ts, sep2, "deflate");
    OccursJoin(ts, sep1, "gzip");
    OccursJoin(ts, sep2, "gzip");
  }

  /** Whitespace inside a name does matter: "g zip" names no encoding. */
  lemma InnerWhitespaceExample()
    ensures Select("g zip") == Err(UnknownEncoding)
  {
    var s := "g zip";
    AvoidingNeverOccurs(s, "br");
    forall i | 0 <= i <= |s| - 4 ensures !OccursAt(s, "gzip", i) {
      if i == 0 {
        assert s[i..i + 4][1] != 'z';
      } else {
        assert s[i..i + 4][0] != 'g';
      }
    }
  }

  /**
   * The outcome for a list of tokens is decided by the best name found in
   * any one token: it is Brotli exactly when some token holds "br".
   */
  lemma BrotliIffSomeToken(ts: seq<string>, sep: string)
    requires |sep| > 0 && Inert(sep)
    ensures Select(Join(ts, sep)) == Ok(Brotli) <==> exists k :: 0 <= k < |ts| && Occurs(ts[k], "br")
  {
    InertAvoidsNames(sep);
    OccursJoin(ts, sep, "br");
  }

  /** The header map holding a single `Accept-Encoding` field with value `s`. */
  function SingleHeader(s: string): HeaderMap
    requires IsVisibleText(s)
  {
    HeaderMap([(ACCEPT_ENCODING, FromText(s))])
  }

  /** The documented example: "gzip, deflate, br" yields Brotli. */
  lemma DocumentedExample()
    ensures Parse(SingleHeader("gzip, deflate, br")).Ok?
    ensures Parse(SingleHeader("gzip, deflate, br")).value.IsBrotli()
  {
    var s := "gzip, deflate, br";
    ToStrFromText(s);
    assert OccursAt(s, "br", 15);
  }

  /** An empty header map, i.e. no `Accept-Encoding` field: `None`, not an error. */
  lemma AbsentHeaderExample()
    ensures Parse(HeaderMap([])) == Ok(Encoding.None)
  {
  }

  /** "identity" names none of the three encodings. */
  lemma IdentityNamesNone()
    ensures !Occurs("identity", "br") && !Occurs("identity", "deflate") && !Occurs("identity", "gzip")
  {
    var s := "identity";
    AvoidingNeverOccurs(s, "br");
    forall i | 0 <= i <= |s| - 7 ensures !OccursAt(s, "deflate", i) {
      assert s[i..i + 7][2] != 'f';
    }
    forall i | 0 <= i <= |s| - 4 ensures !OccursAt(s, "gzip", i) {
      assert s[i..i + 4][0] != 'g';
    }
  }

  /** A readable value naming none of the three encodings is an unknown encoding. */
  lemma UnknownExample()
    ensures Parse(SingleHeader("identity")) == Err(UnknownEncoding)
    ensures Parse(SingleHeader("")) == Err(UnknownEncoding)
  {
    ToStrFromText("identity");
    ToStrFromText("");
    IdentityNamesNone();
  }

  /**
   * A well-formed value with a byte beyond ASCII is rejected before the names
   * are looked for, although its first bytes spell "br".
   */
  lemma UnreadableExample()
    ensures WellFormed(HeaderMap([(ACCEPT_ENCODING, HeaderValue([98, 114, 255]))]))
    ensures Parse(HeaderMap([(ACCEPT_ENCODING, HeaderValue([98, 114, 255]))])) == Err(InvalidEncoding)
  {
    assert !IsVisibleAscii(HeaderValue([98, 114, 255]).bytes[2]);
  }

  /** A client that refuses Brotli with `q=0` still gets Brotli. */
  lemma RefusedBrotliStillChosen()
    ensures Select("gzip, br;q=0") == Ok(Brotli)
  {
  }
}
