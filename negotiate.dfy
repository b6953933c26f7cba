/** Accept-Encoding negotiation (section 14.3 of RFC 2616, qvalues as in
    section 3.9): a header value is split on commas, each token is parsed into
    a coding name and a qvalue, the weights of identity, gzip and deflate are
    collected into a record, and the record decides one flateType.

    Go's strconv.ParseFloat is not modelled: every operation takes it as a
    parameter `parseFloat`, and every property holds whatever it returns.
    Its error result is discarded by the code, so only its value matters. */
module Negotiate {
  import opened Strings

  /** The decision, in the order of its Go constants (Identity = 0,
      Deflate = 1, Gzip = 2). */
  datatype FlateType = Identity | Deflate | Gzip

  /** The numeric value of the Go constant: the larger, the stronger the compression. */
  function Level(t: FlateType): (n: nat)
    ensures n <= 2
    ensures n == 0 <==> t == Identity
    ensures n == 2 <==> t == Gzip
  {
    match t
    case Identity => 0
    case Deflate => 1
    case Gzip => 2
  }

  /** The weight a coding gets when its token carries no usable `q=` segment. */
  const DefaultQValue: real := 1.0

  /** The weights of the three codings the handler knows; Go's zero value is
      all weights 0. */
  datatype Codings = Codings(identity: real, gzip: real, deflate: real)

  const NoCodings: Codings := Codings(0.0, 0.0, 0.0)

  /** One parsed token: a coding name and its qvalue. */
  datatype Coding = Coding(name: string, qvalue: real)

  /** The value strconv.ParseFloat gives for a string (0 on a syntax error). */
  type FloatParser = string -> real

  /** The clamp applied to a parsed qvalue: below 0 becomes 0, above 1 becomes 1. */
  function Clamp(q: real): (r: real)
    ensures 0.0 <= r <= 1.0
    ensures 0.0 <= q <= 1.0 ==> r == q
    ensures q < 0.0 ==> r == 0.0
    ensures q > 1.0 ==> r == 1.0
  {
    if q < 0.0 then 0.0 else if q > 1.0 then 1.0 else q
  }

  /** The qvalue a segment after the first one leaves behind: the clamped
      number after `q=` when the trimmed segment begins with `q=`, otherwise
      the default. */
  function SegmentWeight(part: string, parseFloat: FloatParser): (q: real)
    ensures 0.0 <= q <= 1.0
  {
    var p := TrimSpace(part);
    if HasPrefix(p, "q=") then Clamp(parseFloat(TrimPrefix(p, "q="))) else DefaultQValue
  }

  /** What parseCoding returns for token `s`: the first `;`-segment, trimmed
      and lower-cased, as the name; the weight decided by the LAST segment
      alone (the default when the name is the only segment). */
  function CodingOf(s: string, parseFloat: FloatParser): (c: Coding)
    ensures 0.0 <= c.qvalue <= 1.0
  {
    var parts := Split(s, ';');
    Coding(ToLower(TrimSpace(parts[0])),
           if |parts| == 1 then DefaultQValue else SegmentWeight(parts[|parts| - 1], parseFloat))
  }

  /** parseCoding: walks the `;`-segments of `s`, resetting the qvalue to the
      default on every segment. */
  method ParseCoding(s: string, parseFloat: FloatParser) returns (coding: string, qvalue: real)
    ensures Coding(coding, qvalue) == CodingOf(s, parseFloat)
  {
    var parts := Split(s, ';');
    coding, qvalue := "", 0.0;
    var n := 0;
    while n < |parts|
      invariant 0 <= n <= |parts|
      invariant n > 0 ==> coding == ToLower(TrimSpace(parts[0]))
      invariant n > 0 ==> qvalue == if n == 1 then DefaultQValue else SegmentWeight(parts[n - 1], parseFloat)
    {
      var part := TrimSpace(parts[n]);
      qvalue := DefaultQValue;
      if n == 0 {
        coding := ToLower(part);
      } else if HasPrefix(part, "q=") {
        qvalue := parseFloat(TrimPrefix(part, "q="));
        if qvalue < 0.0 {
          qvalue := 0.0;
        } else if qvalue > 1.0 {
          qvalue := 1.0;
        }
      }
      n := n + 1;
    }
  }

  /** Segments after the first never change the name. */
  lemma NameIgnoresLaterSegments(s: string, t: string, parseFloat: FloatParser)
    ensures CodingOf(s + ";" + t, parseFloat).name == CodingOf(s, parseFloat).name
  {
    SplitConcat(s, t, ';');
  }

  /** The weight is decided by the last segment alone, whatever precedes it. */
  lemma WeightFromLastSegment(s: string, t: string, parseFloat: FloatParser)
    requires ';' !in t
    ensures CodingOf(s + ";" + t, parseFloat).qvalue == SegmentWeight(t, parseFloat)
  {
    SplitConcat(s, t, ';');
    SplitNoSep(t, ';');
  }

  /** A trailing segment that is not a `q=` segment resets the weight to the
      default, discarding any `q=` segment before it. */
  lemma TrailingSegmentResetsWeight(s: string, t: string, parseFloat: FloatParser)
    requires ';' !in t && !HasPrefix(TrimSpace(t), "q=")
    ensures CodingOf(s + ";" + t, parseFloat).qvalue == DefaultQValue
  {
    WeightFromLastSegment(s, t, parseFloat);
  }

  /** A token without `;` is all name, and gets the default weight. */
  lemma NoParametersDefaultWeight(s: string, parseFloat: FloatParser)
    requires ';' !in s
    ensures CodingOf(s, parseFloat) == Coding(ToLower(TrimSpace(s)), DefaultQValue)
  {
    SplitNoSep(s, ';');
  }

  /** Whether some coding in `cs` is called `name`. */
  predicate Names(cs: seq<Coding>, name: string) {
    exists i :: 0 <= i < |cs| && cs[i].name == name
  }

  /** The weight the last coding called `name` in `cs` carries, 0 when there
      is none: what the loop of parseEncodings leaves in that field. */
  function LastWeight(cs: seq<Coding>, name: string): real {
    if |cs| == 0 then 0.0
    else if cs[|cs| - 1].name == name then cs[|cs| - 1].qvalue
    else LastWeight(cs[..|cs| - 1], name)
  }

  /** LastWeight is the weight of the last coding with that name, and 0
      exactly when no coding has it (or the last one says 0). */
  lemma {:induction false} LastWeightIsLastOccurrence(cs: seq<Coding>, name: string)
    ensures !Names(cs, name) ==> LastWeight(cs, name) == 0.0
    ensures Names(cs, name) ==>
      exists i :: 0 <= i < |cs| && cs[i].name == name && cs[i].qvalue == LastWeight(cs, name) &&
        forall j :: i < j < |cs| ==> cs[j].name != name
    decreases |cs|
  {
    if |cs| > 0 && cs[|cs| - 1].name != name {
      var init := cs[..|cs| - 1];
      LastWeightIsLastOccurrence(init, name);
      assert forall i :: 0 <= i < |init| ==> init[i] == cs[i];
      if Names(cs, name) {
        var k :| 0 <= k < |cs| && cs[k].name == name;
        assert init[k].name == name;
      }
    }
  }

  /** Codings after the last occurrence of a name never affect its weight;
      codings after `p` that name it override everything in `p`. */
  lemma {:induction false} LastWeightAppend(p: seq<Coding>, q: seq<Coding>, name: string)
    ensures LastWeight(p + q, name) == if Names(q, name) then LastWeight(q, name) else LastWeight(p, name)
    decreases |q|
  {
    if |q| > 0 {
      var pq := p + q;
      assert pq[..|pq| - 1] == p + q[..|q| - 1];
      assert pq[|pq| - 1] == q[|q| - 1];
      LastWeightAppend(p, q[..|q| - 1], name);
      if q[|q| - 1].name != name {
        assert Names(q, name) == Names(q[..|q| - 1], name) by {
          if Names(q, name) {
            var i :| 0 <= i < |q| && q[i].name == name;
            assert q[..|q| - 1][i].name == name;
          }
          if Names(q[..|q| - 1], name) {
            var i :| 0 <= i < |q| - 1 && q[..|q| - 1][i].name == name;
            assert q[i].name == name;
          }
        }
      } else {
        assert Names(q, name) by { assert q[|q| - 1].name == name; }
      }
    } else {
      assert p + q == p;
    }
  }

  /** Every token of a header value, parsed. */
  function ParseTokens(tokens: seq<string>, parseFloat: FloatParser): (cs: seq<Coding>)
    ensures |cs| == |tokens|
    ensures forall i :: 0 <= i < |tokens| ==> cs[i] == CodingOf(tokens[i], parseFloat)
  {
    seq(|tokens|, i requires 0 <= i < |tokens| => CodingOf(tokens[i], parseFloat))
  }

  /** The codings of a header value, in order. */
  function CodingsOf(header: string, parseFloat: FloatParser): seq<Coding> {
    ParseTokens(Split(header, ','), parseFloat)
  }

  /** The switch of parseEncodings: a coding's weight goes into the field its
      name selects; any other name leaves the record as it is. */
  function Overwrite(c: Codings, x: Coding): (r: Codings)
    ensures Known(x.name) ==> Weight(r, x.name) == x.qvalue
    ensures forall name :: name != x.name ==> Weight(r, name) == Weight(c, name)
    ensures !Known(x.name) ==> r == c
  {
    if x.name == "identity" then c.(identity := x.qvalue)
    else if x.name == "gzip" then c.(gzip := x.qvalue)
    else if x.name == "deflate" then c.(deflate := x.qvalue)
    else c
  }

  /** The record left after applying the codings `cs` to `c` in order. When
      the record and every coding's qvalue lie in [0,1], so does the result. */
  function Fold(c: Codings, cs: seq<Coding>): (r: Codings)
    ensures InRange(c) && (forall i :: 0 <= i < |cs| ==> 0.0 <= cs[i].qvalue <= 1.0) ==> InRange(r)
    decreases |cs|
  {
    if |cs| == 0 then c else Fold(Overwrite(c, cs[0]), cs[1..])
  }

  /** Whether every weight of the record lies in [0,1]. */
  predicate InRange(c: Codings) {
    0.0 <= c.identity <= 1.0 && 0.0 <= c.gzip <= 1.0 && 0.0 <= c.deflate <= 1.0
  }

  /** What parseEncodings returns for header value `s`: the zero record with
      every token applied in order. Every weight lies in [0,1]. */
  function Encodings(s: string, parseFloat: FloatParser): (c: Codings)
    ensures InRange(c)
  {
    Fold(NoCodings, CodingsOf(s, parseFloat))
  }

  /** parseEncodings: parses each comma-separated token and overwrites the
      field its name selects; any other name leaves the record alone. */
  method ParseEncodings(s: string, parseFloat: FloatParser) returns (c: Codings)
    ensures c == Encodings(s, parseFloat)
  {
    var tokens := Split(s, ',');
    ghost var cs := ParseTokens(tokens, parseFloat);
    c := NoCodings;
    var n := 0;
    assert cs[n..] == cs;
    while n < |tokens|
      invariant 0 <= n <= |tokens|
      invariant Fold(c, cs[n..]) == Encodings(s, parseFloat)
    {
      var coding, qvalue := ParseCoding(tokens[n], parseFloat);
      assert cs[n..][1..] == cs[n + 1..];
      if coding == "identity" {
        c := c.(identity := qvalue);
      } else if coding == "gzip" {
        c := c.(gzip := qvalue);
      } else if coding == "deflate" {
        c := c.(deflate := qvalue);
      }
      n := n + 1;
    }
  }

  /** The names parseEncodings keeps. */
  predicate Known(name: string) {
    name == "identity" || name == "gzip" || name == "deflate"
  }

  /** Folding codings into a record leaves, in a known field, the weight of the
      last coding with that name, and the record's own weight when none has it. */
  lemma {:induction false} FoldWeight(c: Codings, cs: seq<Coding>, name: string)
    requires Known(name)
    ensures Weight(Fold(c, cs), name) == if Names(cs, name) then LastWeight(cs, name) else Weight(c, name)
    decreases |cs|
  {
    if |cs| > 0 {
      var x, rest := cs[0], cs[1..];
      FoldWeight(Overwrite(c, x), rest, name);
      LastWeightAppend([x], rest, name);
      assert [x] + rest == cs;
      assert [x][..0] == [];
      if x.name == name {
        assert Names(cs, name) by { assert cs[0].name == name; }
      } else {
        assert Names(cs, name) == Names(rest, name) by {
          if Names(cs, name) {
            var i :| 0 <= i < |cs| && cs[i].name == name;
            assert rest[i - 1].name == name;
          }
          if Names(rest, name) {
            var i :| 0 <= i < |rest| && rest[i].name == name;
            assert cs[i + 1].name == name;
          }
        }
      }
    }
  }

  /** The record of parseEncodings is the "last occurrence wins" record: each
      field holds the weight of the last token naming its coding, 0 if none. */
  lemma EncodingsAreLastWeights(s: string, parseFloat: FloatParser)
    ensures Encodings(s, parseFloat) == Codings(
      LastWeight(CodingsOf(s, parseFloat), "identity"),
      LastWeight(CodingsOf(s, parseFloat), "gzip"),
      LastWeight(CodingsOf(s, parseFloat), "deflate"))
  {
    var cs := CodingsOf(s, parseFloat);
    FoldWeight(NoCodings, cs, "identity");
    FoldWeight(NoCodings, cs, "gzip");
    FoldWeight(NoCodings, cs, "deflate");
    LastWeightIsLastOccurrence(cs, "identity");
    LastWeightIsLastOccurrence(cs, "gzip");
    LastWeightIsLastOccurrence(cs, "deflate");
  }

  /** Applying `p` then `q` is applying `p + q`. */
  lemma {:induction false} FoldAppend(c: Codings, p: seq<Coding>, q: seq<Coding>)
    ensures Fold(c, p + q) == Fold(Fold(c, p), q)
    decreases |p|
  {
    if |p| > 0 {
      assert (p + q)[1..] == p[1..] + q;
      FoldAppend(Overwrite(c, p[0]), p[1..], q);
    } else {
      assert p + q == q;
    }
  }

  /** A string without commas is a single token. */
  lemma CodingsOfToken(t: string, parseFloat: FloatParser)
    requires ',' !in t
    ensures CodingsOf(t, parseFloat) == [CodingOf(t, parseFloat)]
  {
    SplitNoSep(t, ',');
    var cs := ParseTokens([t], parseFloat);
    assert |cs| == 1 && cs[0] == CodingOf(t, parseFloat);
  }

  lemma FoldSingle(c: Codings, x: Coding)
    ensures Fold(c, [x]) == Overwrite(c, x)
  {
    assert [x][1..] == [];
  }

  /** A header value of one token gives that token's weight to the field its
      name selects, and 0 to the others. */
  lemma SingleToken(t: string, parseFloat: FloatParser)
    requires ',' !in t
    ensures Encodings(t, parseFloat) == Overwrite(NoCodings, CodingOf(t, parseFloat))
  {
    CodingsOfToken(t, parseFloat);
    FoldSingle(NoCodings, CodingOf(t, parseFloat));
  }

  /** One more token after `s` is applied to the record `s` gives: the step of
      the parseEncodings loop, stated on header values. */
  lemma AppendToken(s: string, t: string, parseFloat: FloatParser)
    requires ',' !in t
    ensures Encodings(s + "," + t, parseFloat) == Overwrite(Encodings(s, parseFloat), CodingOf(t, parseFloat))
  {
    var p, x := CodingsOf(s, parseFloat), CodingOf(t, parseFloat);
    CodingsOfToken(t, parseFloat);
    CodingsOfConcat(s, t, parseFloat);
    FoldAppend(NoCodings, p, [x]);
    FoldSingle(Fold(NoCodings, p), x);
    assert Encodings(s + "," + t, parseFloat) == Fold(NoCodings, p + [x]);
  }

  /** Whether some token of header value `s` names the coding `name`. */
  predicate Mentions(s: string, name: string, parseFloat: FloatParser) {
    Names(CodingsOf(s, parseFloat), name)
  }

  /** The tokens of `s + "," + t` are those of `s` followed by those of `t`. */
  lemma CodingsOfConcat(s: string, t: string, parseFloat: FloatParser)
    ensures CodingsOf(s + "," + t, parseFloat) == CodingsOf(s, parseFloat) + CodingsOf(t, parseFloat)
  {
    SplitConcat(s, t, ',');
    ParseTokensConcat(Split(s, ','), Split(t, ','), parseFloat);
  }

  lemma ParseTokensConcat(a: seq<string>, b: seq<string>, parseFloat: FloatParser)
    ensures ParseTokens(a + b, parseFloat) == ParseTokens(a, parseFloat) + ParseTokens(b, parseFloat)
  {
    var l, r := ParseTokens(a + b, parseFloat), ParseTokens(a, parseFloat) + ParseTokens(b, parseFloat);
    assert |l| == |r|;
    forall i | 0 <= i < |l| ensures l[i] == r[i] {
      if i < |a| { assert (a + b)[i] == a[i]; } else { assert (a + b)[i] == b[i - |a|]; }
    }
  }

  /** When a coding appears more than once, the last occurrence wins: in
      `s + "," + t` a coding named in `t` takes its weight from `t`, any other
      keeps its weight from `s`. */
  lemma LaterTokensOverride(s: string, t: string, parseFloat: FloatParser)
    ensures Encodings(s + "," + t, parseFloat).identity ==
      if Mentions(t, "identity", parseFloat) then Encodings(t, parseFloat).identity else Encodings(s, parseFloat).identity
    ensures Encodings(s + "," + t, parseFloat).gzip ==
      if Mentions(t, "gzip", parseFloat) then Encodings(t, parseFloat).gzip else Encodings(s, parseFloat).gzip
    ensures Encodings(s + "," + t, parseFloat).deflate ==
      if Mentions(t, "deflate", parseFloat) then Encodings(t, parseFloat).deflate else Encodings(s, parseFloat).deflate
  {
    CodingsOfConcat(s, t, parseFloat);
    EncodingsAreLastWeights(s + "," + t, parseFloat);
    EncodingsAreLastWeights(s, parseFloat);
    EncodingsAreLastWeights(t, parseFloat);
    var p, q := CodingsOf(s, parseFloat), CodingsOf(t, parseFloat);
    LastWeightAppend(p, q, "identity");
    LastWeightAppend(p, q, "gzip");
    LastWeightAppend(p, q, "deflate");
  }

  /** Whether header value `t` names none of identity, gzip and deflate. */
  predicate OnlyOtherCodings(t: string, parseFloat: FloatParser) {
    !Mentions(t, "identity", parseFloat) && !Mentions(t, "gzip", parseFloat) && !Mentions(t, "deflate", parseFloat)
  }

  /** Tokens naming any other coding (compress, *, sdch, the empty name, ...)
      leave the record exactly as it was, wherever they stand, and on their
      own give the all-zero record. */
  lemma OtherCodingsIgnored(s: string, t: string, parseFloat: FloatParser)
    requires OnlyOtherCodings(t, parseFloat)
    ensures Encodings(t, parseFloat) == NoCodings
    ensures Encodings(s + "," + t, parseFloat) == Encodings(s, parseFloat)
    ensures Encodings(t + "," + s, parseFloat) == Encodings(s, parseFloat)
  {
    UnmentionedIsZero(t, parseFloat);
    UnmentionedIsZero(s, parseFloat);
    LaterTokensOverride(s, t, parseFloat);
    LaterTokensOverride(t, s, parseFloat);
  }

  /** A coding no token names has weight 0. */
  lemma UnmentionedIsZero(s: string, parseFloat: FloatParser)
    ensures !Mentions(s, "identity", parseFloat) ==> Encodings(s, parseFloat).identity == 0.0
    ensures !Mentions(s, "gzip", parseFloat) ==> Encodings(s, parseFloat).gzip == 0.0
    ensures !Mentions(s, "deflate", parseFloat) ==> Encodings(s, parseFloat).deflate == 0.0
  {
    var cs := CodingsOf(s, parseFloat);
    EncodingsAreLastWeights(s, parseFloat);
    LastWeightIsLastOccurrence(cs, "identity");
    LastWeightIsLastOccurrence(cs, "gzip");
    LastWeightIsLastOccurrence(cs, "deflate");
  }

  /** Whether the record makes decision `t` possible: identity always is, a
      compressing coding when its weight is positive. */
  predicate Supported(c: Codings, t: FlateType) {
    match t
    case Identity => true
    case Deflate => c.deflate > 0.0
    case Gzip => c.gzip > 0.0
  }

  /** The selection rule of accepts: the highest compression level the client
      gives a positive weight, Identity when neither gzip nor deflate has one.
      The identity weight is never read. */
  function Select(c: Codings): (t: FlateType)
    ensures Supported(c, t)
    ensures forall u :: Supported(c, u) ==> Level(u) <= Level(t)
  {
    if c.gzip > 0.0 then Gzip
    else if c.deflate > 0.0 then Deflate
    else Identity
  }

  /** accepts: the decision for an Accept-Encoding header value (the empty
      string when the request carries none). */
  function Accepts(acceptEncoding: string, parseFloat: FloatParser): (t: FlateType)
    ensures Supported(Encodings(acceptEncoding, parseFloat), t)
    ensures forall u :: Supported(Encodings(acceptEncoding, parseFloat), u) ==> Level(u) <= Level(t)
  {
    Select(Encodings(acceptEncoding, parseFloat))
  }

  /** The identity weight never influences the decision. */
  lemma IdentityWeightUnused(c: Codings, w: real)
    ensures Select(c.(identity := w)) == Select(c)
  {
  }

  /** Appending tokens that name neither gzip nor deflate never changes the decision,
      so `identity;q=0` cannot refuse an uncompressed response. */
  lemma IdentityTokensNeverDecide(s: string, t: string, parseFloat: FloatParser)
    requires !Mentions(t, "gzip", parseFloat) && !Mentions(t, "deflate", parseFloat)
    ensures Accepts(s + "," + t, parseFloat) == Accepts(s, parseFloat)
  {
    LaterTokensOverride(s, t, parseFloat);
  }

  /** Gzip wins whenever it has a positive weight, even against a larger deflate weight. */
  lemma GzipPreferred(s: string, parseFloat: FloatParser)
    requires Encodings(s, parseFloat).gzip > 0.0
    ensures Accepts(s, parseFloat) == Gzip
  {
  }

  /** The name a decision goes by in a Content-Encoding header and in a token. */
  function CodingName(t: FlateType): (name: string)
    ensures Known(name)
  {
    match t
    case Identity => "identity"
    case Deflate => "deflate"
    case Gzip => "gzip"
  }

  /** The weight the record gives the coding called `name`; 0 for any name it does not keep. */
  function Weight(c: Codings, name: string): real {
    if name == "identity" then c.identity
    else if name == "gzip" then c.gzip
    else if name == "deflate" then c.deflate
    else 0.0
  }

  /** A compressing decision names a coding whose token in the header carries
      a positive weight; Identity is chosen exactly when none does. */
  lemma DecisionWasOffered(s: string, parseFloat: FloatParser)
    ensures Accepts(s, parseFloat) != Identity ==>
      Mentions(s, CodingName(Accepts(s, parseFloat)), parseFloat) &&
      Weight(Encodings(s, parseFloat), CodingName(Accepts(s, parseFloat))) > 0.0
    ensures Accepts(s, parseFloat) == Identity <==>
      Encodings(s, parseFloat).gzip <= 0.0 && Encodings(s, parseFloat).deflate <= 0.0
  {
    var cs := CodingsOf(s, parseFloat);
    EncodingsAreLastWeights(s, parseFloat);
    LastWeightIsLastOccurrence(cs, "gzip");
    LastWeightIsLastOccurrence(cs, "deflate");
  }
}
