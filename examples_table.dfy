/** The table of compress_test.go and the two requests of its handler test,
    as facts about the model, with a few more header values that show how
    the code treats repeated segments and identity. ParseFloat is pinned down
    only on the numerals these header values use. */
module TestTable {
  import opened Strings
  import opened Negotiate
  import opened Handler

  /** What strconv.ParseFloat returns for the numerals in the table. */
  predicate ParsesTableLiterals(parseFloat: FloatParser) {
    parseFloat("0.5") == 0.5 && parseFloat("1.0") == 1.0 && parseFloat("1") == 1.0 && parseFloat("0") == 0.0
  }

  /** A token of a name segment and one parameter segment. */
  lemma TwoSegments(a: string, b: string, parseFloat: FloatParser)
    requires ';' !in a && ';' !in b
    ensures CodingOf(a + ";" + b, parseFloat) == Coding(ToLower(TrimSpace(a)), SegmentWeight(b, parseFloat))
  {
    NameIgnoresLaterSegments(a, b, parseFloat);
    NoParametersDefaultWeight(a, parseFloat);
    WeightFromLastSegment(a, b, parseFloat);
  }

  // Facts about the literal text of the table, each proved on its own, which
  // keeps every proof below small: the coding names are trimmed lower-case
  // words free of separators, and the q segments weigh what ParseFloat gives.

  lemma CompressWord()
    ensures TrimSpace("compress") == "compress" && ToLower("compress") == "compress"
    ensures ';' !in "compress" && ',' !in "compress"
  {
  }

  lemma GzipWord()
    ensures TrimSpace("gzip") == "gzip" && ToLower("gzip") == "gzip"
    ensures ';' !in "gzip" && ',' !in "gzip"
  {
  }

  lemma IdentityWord()
    ensures TrimSpace("identity") == "identity" && ToLower("identity") == "identity"
    ensures ';' !in "identity" && ',' !in "identity"
  {
  }

  lemma BlankWord(w: string)
    requires ';' !in w && ',' !in w
    ensures TrimSpace([' '] + w) == TrimSpace(w)
    ensures ';' !in [' '] + w && ',' !in [' '] + w
  {
    TrimSpaceLeading(' ', w);
  }

  lemma BlankGzipWord()
    ensures TrimSpace(" gzip") == "gzip" && ';' !in " gzip" && ',' !in " gzip"
  {
    GzipWord();
    assert " gzip" == [' '] + "gzip";
    BlankWord("gzip");
  }

  lemma BlankIdentityWord()
    ensures TrimSpace(" identity") == "identity" && ';' !in " identity" && ',' !in " identity"
  {
    IdentityWord();
    assert " identity" == [' '] + "identity";
    BlankWord("identity");
  }

  lemma BlankDeflateWord()
    ensures TrimSpace(" deflate") == "deflate" && ToLower("deflate") == "deflate"
    ensures ';' !in " deflate" && ',' !in " deflate"
  {
    assert " deflate" == [' '] + "deflate";
    BlankWord("deflate");
  }

  lemma BlankSdchWord()
    ensures TrimSpace(" sdch") == "sdch" && ToLower("sdch") == "sdch"
    ensures ';' !in " sdch" && ',' !in " sdch"
  {
    assert " sdch" == [' '] + "sdch";
    BlankWord("sdch");
  }

  lemma HalfSegment(parseFloat: FloatParser)
    ensures SegmentWeight("q=0.5", parseFloat) == Clamp(parseFloat("0.5"))
    ensures ';' !in "q=0.5"
  {
    assert "q=0.5"[2..] == "0.5";
  }

  lemma BlankHalfSegment(parseFloat: FloatParser)
    ensures SegmentWeight(" q=0.5", parseFloat) == Clamp(parseFloat("0.5"))
    ensures ';' !in " q=0.5"
  {
    assert " q=0.5" == [' '] + "q=0.5";
    TrimSpaceLeading(' ', "q=0.5");
    assert "q=0.5"[2..] == "0.5";
  }

  lemma OneSegment(parseFloat: FloatParser)
    ensures SegmentWeight("q=1.0", parseFloat) == Clamp(parseFloat("1.0"))
    ensures ';' !in "q=1.0"
  {
    assert "q=1.0"[2..] == "1.0";
  }

  lemma ZeroSegment(parseFloat: FloatParser)
    ensures SegmentWeight("q=0", parseFloat) == Clamp(parseFloat("0"))
    ensures ';' !in "q=0"
  {
    assert "q=0"[2..] == "0";
  }

  // The tokens of the table, one lemma each: what CodingOf makes of them, and
  // that they hold no comma.

  lemma CompressToken(parseFloat: FloatParser)
    ensures CodingOf("compress", parseFloat) == Coding("compress", 1.0)
    ensures ',' !in "compress"
  {
    CompressWord();
    NoParametersDefaultWeight("compress", parseFloat);
  }

  lemma GzipToken(parseFloat: FloatParser)
    ensures CodingOf("gzip", parseFloat) == Coding("gzip", 1.0)
    ensures ',' !in "gzip"
  {
    GzipWord();
    NoParametersDefaultWeight("gzip", parseFloat);
  }

  lemma BlankGzipToken(parseFloat: FloatParser)
    ensures CodingOf(" gzip", parseFloat) == Coding("gzip", 1.0)
    ensures ',' !in " gzip"
  {
    BlankGzipWord();
    GzipWord();
    NoParametersDefaultWeight(" gzip", parseFloat);
  }

  lemma BlankDeflateToken(parseFloat: FloatParser)
    ensures CodingOf(" deflate", parseFloat) == Coding("deflate", 1.0)
    ensures ',' !in " deflate"
  {
    BlankDeflateWord();
    NoParametersDefaultWeight(" deflate", parseFloat);
  }

  lemma BlankSdchToken(parseFloat: FloatParser)
    ensures CodingOf(" sdch", parseFloat) == Coding("sdch", 1.0)
    ensures ',' !in " sdch"
  {
    BlankSdchWord();
    NoParametersDefaultWeight(" sdch", parseFloat);
  }

  lemma CompressHalfText()
    ensures "compress;q=0.5" == "compress" + ";" + "q=0.5"
    ensures ',' !in "compress;q=0.5"
  {
  }

  lemma CompressHalfToken(parseFloat: FloatParser)
    requires ParsesTableLiterals(parseFloat)
    ensures CodingOf("compress;q=0.5", parseFloat) == Coding("compress", 0.5)
    ensures ',' !in "compress;q=0.5"
  {
    CompressHalfText();
    CompressWord();
    HalfSegment(parseFloat);
    TwoSegments("compress", "q=0.5", parseFloat);
  }

  lemma GzipOneText()
    ensures "gzip;q=1.0" == "gzip" + ";" + "q=1.0"
    ensures ',' !in "gzip;q=1.0"
  {
  }

  lemma GzipOneToken(parseFloat: FloatParser)
    requires ParsesTableLiterals(parseFloat)
    ensures CodingOf("gzip;q=1.0", parseFloat) == Coding("gzip", 1.0)
    ensures ',' !in "gzip;q=1.0"
  {
    GzipOneText();
    GzipWord();
    OneSegment(parseFloat);
    TwoSegments("gzip", "q=1.0", parseFloat);
  }

  lemma BlankGzipOneText()
    ensures " gzip;q=1.0" == " gzip" + ";" + "q=1.0"
    ensures ',' !in " gzip;q=1.0"
  {
  }

  lemma BlankGzipOneToken(parseFloat: FloatParser)
    requires ParsesTableLiterals(parseFloat)
    ensures CodingOf(" gzip;q=1.0", parseFloat) == Coding("gzip", 1.0)
    ensures ',' !in " gzip;q=1.0"
  {
    BlankGzipOneText();
    BlankGzipWord();
    GzipWord();
    OneSegment(parseFloat);
    TwoSegments(" gzip", "q=1.0", parseFloat);
  }

  lemma BlankIdentityHalfText()
    ensures " identity; q=0.5" == " identity" + ";" + " q=0.5"
    ensures ',' !in " identity; q=0.5"
  {
  }

  lemma BlankIdentityHalfToken(parseFloat: FloatParser)
    requires ParsesTableLiterals(parseFloat)
    ensures CodingOf(" identity; q=0.5", parseFloat) == Coding("identity", 0.5)
    ensures ',' !in " identity; q=0.5"
  {
    BlankIdentityHalfText();
    BlankIdentityWord();
    IdentityWord();
    BlankHalfSegment(parseFloat);
    TwoSegments(" identity", " q=0.5", parseFloat);
  }

  lemma BlankWildcardZeroText()
    ensures " *;q=0" == " *" + ";" + "q=0"
    ensures ',' !in " *;q=0" && ';' !in " *" && ';' !in "q=0"
    ensures " *" == [' '] + "*"
  {
  }

  lemma BlankWildcardZeroToken(parseFloat: FloatParser)
    ensures CodingOf(" *;q=0", parseFloat).name == "*"
    ensures ',' !in " *;q=0"
  {
    BlankWildcardZeroText();
    TwoSegments(" *", "q=0", parseFloat);
    TrimSpaceLeading(' ', "*");
  }

  lemma UpperAText()
    ensures "AAA;q=1" == "AAA" + ";" + "q=1"
    ensures ',' !in "AAA;q=1" && ';' !in "AAA" && ';' !in "q=1"
  {
  }

  lemma UpperAToken(parseFloat: FloatParser)
    ensures CodingOf("AAA;q=1", parseFloat).name == "aaa"
    ensures ',' !in "AAA;q=1"
  {
    UpperAText();
    TwoSegments("AAA", "q=1", parseFloat);
    assert ToLower(TrimSpace("AAA")) == "aaa";
  }

  lemma SpacedUpperBText()
    ensures "BBB ; q = 2" == "BBB " + ";" + " q = 2"
    ensures ',' !in "BBB ; q = 2" && ';' !in "BBB " && ';' !in " q = 2"
  {
  }

  lemma SpacedUpperBTrims()
    ensures ToLower(TrimSpace("BBB ")) == "bbb"
  {
    assert "BBB " == "BBB" + [' '];
    TrimSpaceTrailing("BBB", ' ');
  }

  lemma SpacedUpperBToken(parseFloat: FloatParser)
    ensures CodingOf("BBB ; q = 2", parseFloat).name == "bbb"
    ensures ',' !in "BBB ; q = 2"
  {
    SpacedUpperBText();
    SpacedUpperBTrims();
    TwoSegments("BBB ", " q = 2", parseFloat);
  }

  lemma GzipZeroText()
    ensures "gzip;q=0" == "gzip" + ";" + "q=0"
    ensures ',' !in "gzip;q=0"
  {
  }

  lemma GzipZeroToken(parseFloat: FloatParser)
    requires ParsesTableLiterals(parseFloat)
    ensures CodingOf("gzip;q=0", parseFloat) == Coding("gzip", 0.0)
    ensures ',' !in "gzip;q=0"
  {
    GzipZeroText();
    GzipWord();
    ZeroSegment(parseFloat);
    TwoSegments("gzip", "q=0", parseFloat);
  }

  lemma IdentityZeroText()
    ensures "identity;q=0" == "identity" + ";" + "q=0"
    ensures ',' !in "identity;q=0"
  {
  }

  lemma IdentityZeroToken(parseFloat: FloatParser)
    requires ParsesTableLiterals(parseFloat)
    ensures CodingOf("identity;q=0", parseFloat) == Coding("identity", 0.0)
    ensures ',' !in "identity;q=0"
  {
    IdentityZeroText();
    IdentityWord();
    ZeroSegment(parseFloat);
    TwoSegments("identity", "q=0", parseFloat);
  }

  lemma BlankIdentityZeroText()
    ensures " identity;q=0" == " identity" + ";" + "q=0"
    ensures ',' !in " identity;q=0"
  {
  }

  lemma BlankIdentityZeroToken(parseFloat: FloatParser)
    requires ParsesTableLiterals(parseFloat)
    ensures CodingOf(" identity;q=0", parseFloat) == Coding("identity", 0.0)
    ensures ',' !in " identity;q=0"
  {
    BlankIdentityZeroText();
    BlankIdentityWord();
    IdentityWord();
    ZeroSegment(parseFloat);
    TwoSegments(" identity", "q=0", parseFloat);
  }

  // Where the tokens of each header value of the table begin and end.

  lemma CompressGzipText()
    ensures "compress, gzip" == "compress" + "," + " gzip"
  {
  }

  lemma CompressHalfGzipOneText()
    ensures "compress;q=0.5, gzip;q=1.0" == "compress;q=0.5" + "," + " gzip;q=1.0"
  {
  }

  lemma GzipIdentityWildcardText()
    ensures "gzip;q=1.0, identity; q=0.5, *;q=0" == "gzip;q=1.0" + "," + " identity; q=0.5" + "," + " *;q=0"
  {
  }

  lemma GzipDeflateSdchText()
    ensures "gzip, deflate, sdch" == "gzip" + "," + " deflate" + "," + " sdch"
  {
  }

  lemma GzipIdentityZeroText()
    ensures "gzip, identity;q=0" == "gzip" + "," + " identity;q=0"
  {
  }

  lemma TrailingSegmentText()
    ensures "gzip;q=0;x" == "gzip;q=0" + ";" + "x"
    ensures ';' !in "x" && !HasPrefix(TrimSpace("x"), "q=")
  {
  }

  /** "compress, gzip" gives gzip the default weight and keeps nothing else. */
  lemma CompressGzip(parseFloat: FloatParser)
    ensures Encodings("compress, gzip", parseFloat) == Codings(0.0, 1.0, 0.0)
  {
    CompressGzipText();
    CompressToken(parseFloat);
    BlankGzipToken(parseFloat);
    SingleToken("compress", parseFloat);
    AppendToken("compress", " gzip", parseFloat);
  }

  /** An empty header value and the wildcard give the all-zero record. */
  lemma EmptyAndWildcard(parseFloat: FloatParser)
    ensures Encodings("", parseFloat) == NoCodings
    ensures Encodings("*", parseFloat) == NoCodings
  {
    SingleToken("", parseFloat);
    NoParametersDefaultWeight("", parseFloat);
    SingleToken("*", parseFloat);
    NoParametersDefaultWeight("*", parseFloat);
  }

  /** "compress;q=0.5, gzip;q=1.0" keeps gzip at 1.0. */
  lemma CompressHalfGzipOne(parseFloat: FloatParser)
    requires ParsesTableLiterals(parseFloat)
    ensures Encodings("compress;q=0.5, gzip;q=1.0", parseFloat) == Codings(0.0, 1.0, 0.0)
  {
    CompressHalfGzipOneText();
    CompressHalfToken(parseFloat);
    BlankGzipOneToken(parseFloat);
    SingleToken("compress;q=0.5", parseFloat);
    AppendToken("compress;q=0.5", " gzip;q=1.0", parseFloat);
  }

  /** "gzip;q=1.0, identity; q=0.5, *;q=0" keeps gzip at 1.0 and identity at
      0.5; the wildcard is dropped. */
  lemma GzipIdentityWildcard(parseFloat: FloatParser)
    requires ParsesTableLiterals(parseFloat)
    ensures Encodings("gzip;q=1.0, identity; q=0.5, *;q=0", parseFloat) == Codings(0.5, 1.0, 0.0)
  {
    GzipIdentityWildcardText();
    GzipOneToken(parseFloat);
    BlankIdentityHalfToken(parseFloat);
    BlankWildcardZeroToken(parseFloat);
    SingleToken("gzip;q=1.0", parseFloat);
    AppendToken("gzip;q=1.0", " identity; q=0.5", parseFloat);
    AppendToken("gzip;q=1.0" + "," + " identity; q=0.5", " *;q=0", parseFloat);
  }

  /** Unknown names are dropped whatever their weight, upper-case or spaced. */
  lemma UnknownNames(parseFloat: FloatParser)
    ensures Encodings("AAA;q=1", parseFloat) == NoCodings
    ensures Encodings("BBB ; q = 2", parseFloat) == NoCodings
  {
    UpperAToken(parseFloat);
    SingleToken("AAA;q=1", parseFloat);
    SpacedUpperBToken(parseFloat);
    SingleToken("BBB ; q = 2", parseFloat);
  }

  /** "gzip, deflate, sdch" gives gzip and deflate the default weight. */
  lemma GzipDeflateSdch(parseFloat: FloatParser)
    ensures Encodings("gzip, deflate, sdch", parseFloat) == Codings(0.0, 1.0, 1.0)
  {
    GzipDeflateSdchText();
    GzipToken(parseFloat);
    BlankDeflateToken(parseFloat);
    BlankSdchToken(parseFloat);
    SingleToken("gzip", parseFloat);
    AppendToken("gzip", " deflate", parseFloat);
    AppendToken("gzip" + "," + " deflate", " sdch", parseFloat);
  }

  /** Only the last segment decides the weight: a segment after `q=0` resets it to 1. */
  lemma TrailingSegmentAfterZero(parseFloat: FloatParser)
    ensures CodingOf("gzip;q=0;x", parseFloat) == Coding("gzip", 1.0)
  {
    TrailingSegmentText();
    GzipZeroText();
    NameIgnoresLaterSegments("gzip;q=0", "x", parseFloat);
    NameIgnoresLaterSegments("gzip", "q=0", parseFloat);
    GzipToken(parseFloat);
    TrailingSegmentResetsWeight("gzip;q=0", "x", parseFloat);
  }

  /** `gzip;q=0` refuses gzip; `identity;q=0` refuses nothing, since the
      identity weight is never read. */
  lemma ZeroWeights(parseFloat: FloatParser)
    requires ParsesTableLiterals(parseFloat)
    ensures Accepts("gzip;q=0", parseFloat) == Identity
    ensures Accepts("identity;q=0", parseFloat) == Identity
    ensures Accepts("gzip, identity;q=0", parseFloat) == Gzip
  {
    GzipIdentityZeroText();
    GzipZeroToken(parseFloat);
    IdentityZeroToken(parseFloat);
    GzipToken(parseFloat);
    BlankIdentityZeroToken(parseFloat);
    SingleToken("gzip;q=0", parseFloat);
    SingleToken("identity;q=0", parseFloat);
    SingleToken("gzip", parseFloat);
    AppendToken("gzip", " identity;q=0", parseFloat);
  }

  /** The handler test, first request: without Accept-Encoding the response
      has no Content-Encoding, the body goes to the original writer, and Vary
      is added. */
  lemma RequestWithoutAcceptEncoding(parseFloat: FloatParser)
    ensures Get(Serve(map[], "", parseFloat).header, "Content-Encoding") == ""
    ensures Serve(map[], "", parseFloat).writer == Original
    ensures Get(Serve(map[], "", parseFloat).header, "Vary") == "Accept-Encoding"
  {
    EmptyAndWildcard(parseFloat);
    assert Accepts("", parseFloat) == Identity;
  }

  /** The handler test, second request: with `Accept-Encoding: gzip` the
      response says gzip and the body goes through a gzip encoder. */
  lemma RequestAcceptingGzip(parseFloat: FloatParser)
    ensures Get(Serve(map[], "gzip", parseFloat).header, "Content-Encoding") == "gzip"
    ensures Serve(map[], "gzip", parseFloat).writer == Compressing(Gzip)
  {
    GzipToken(parseFloat);
    SingleToken("gzip", parseFloat);
    assert Accepts("gzip", parseFloat) == Gzip;
  }

  /** Hijacking through the compressing writer on a sink that cannot hijack
      gives ErrUnHijackable, also through two wrappers; on one that can, the
      sink's own result comes back. */
  lemma HijackCases(conn: Conn)
    ensures Hijack(Plain(None)) == Failure(ErrUnHijackable)
    ensures Hijack(Wrapped(Plain(None))) == Failure(ErrUnHijackable)
    ensures Hijack(Wrapped(Plain(Some(Success(conn))))) == Success(conn)
  {
  }
}
