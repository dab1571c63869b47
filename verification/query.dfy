/** `splitQuery`: the query component of a stream URI turned into the ordered
    argument map carried by a subscription request. The query is cut at
    every `&`; each piece is cut at its first `=` into a key and a value, each
    passed through a URL decoder; the pairs are put, in order, into an
    insertion-ordered map. The decoder is a parameter; every property here
    except QueryRoundTrip and ExampleQuery holds whatever decoder is
    supplied. */
module Query {
  import opened Wrappers
  import opened Text
  import opened LinkedMap

  /** Why `splitQuery` throws instead of returning a map. */
  datatype QueryError =
      /** A piece with no `=`: `substring(0, -1)` is out of bounds. */
    | MissingEquals(segment: string)
      /** The decoder rejected this text (a malformed escape). */
    | Undecodable(text: string)

  /** `URLDecoder.decode(text, "UTF-8")`; None stands for the exception it
      throws on text it cannot decode. */
  type Decoder = string -> Option<string>

  /** The decoder that leaves every text as it is. */
  function Verbatim(s: string): Option<string> {
    Some(s)
  }

  /** The pieces of a query, as `query.split("&")` returns them. */
  function Segments(query: string): seq<string> {
    JavaSplit(query, '&')
  }

  /** One piece turned into a decoded key/value pair: the key is the text
      before the first `=` and the value everything after it. The key is
      decoded before the value, so a bad key is the one reported. */
  function ParsePair(segment: string, decode: Decoder): (r: Result<(string, string), QueryError>)
    ensures '=' !in segment <==> r == Err(MissingEquals(segment))
  {
    var idx := IndexOf(segment, '=');
    if idx < 0 then Err(MissingEquals(segment))
    else
      var key := segment[..idx];
      var value := segment[idx + 1..];
      match decode(key)
      case None => Err(Undecodable(key))
      case Some(k) =>
        match decode(value)
        case None => Err(Undecodable(value))
        case Some(v) => Ok((k, v))
  }

  /** Every piece parsed in order; the first piece that fails decides the
      error, as the first exception leaves the loop. */
  function DecodePairs(segments: seq<string>, decode: Decoder): (r: Result<Entries, QueryError>)
    ensures r.Ok? <==> forall i :: 0 <= i < |segments| ==> ParsePair(segments[i], decode).Ok?
    ensures r.Ok? ==> |r.value| == |segments|
    ensures r.Ok? ==> forall i :: 0 <= i < |segments| ==> ParsePair(segments[i], decode) == Ok(r.value[i])
    ensures r.Err? ==> exists i :: 0 <= i < |segments|
                         && ParsePair(segments[i], decode) == Err(r.error)
                         && forall j :: 0 <= j < i ==> ParsePair(segments[j], decode).Ok?
  {
    if |segments| == 0 then Ok([])
    else
      match ParsePair(segments[0], decode)
      case Err(e) => Err(e)
      case Ok(p) =>
        match DecodePairs(segments[1..], decode)
        case Err(e) =>
          FirstFailureShifts(segments, decode, e);
          Err(e)
        case Ok(ps) =>
          assert forall i :: 1 <= i < |segments| ==> segments[1..][i - 1] == segments[i];
          Ok([p] + ps)
  }

  /** The first failing piece after a good first piece is the first failing
      piece of the whole sequence. */
  lemma FirstFailureShifts(segments: seq<string>, decode: Decoder, e: QueryError)
    requires |segments| > 0 && ParsePair(segments[0], decode).Ok?
    requires exists i :: 0 <= i < |segments[1..]|
               && ParsePair(segments[1..][i], decode) == Err(e)
               && forall j :: 0 <= j < i ==> ParsePair(segments[1..][j], decode).Ok?
    ensures exists i :: 0 <= i < |segments|
              && ParsePair(segments[i], decode) == Err(e)
              && forall j :: 0 <= j < i ==> ParsePair(segments[j], decode).Ok?
  {
    var i :| 0 <= i < |segments[1..]|
             && ParsePair(segments[1..][i], decode) == Err(e)
             && forall j :: 0 <= j < i ==> ParsePair(segments[1..][j], decode).Ok?;
    assert segments[i + 1] == segments[1..][i];
    forall j | 0 <= j < i + 1 ensures ParsePair(segments[j], decode).Ok? {
      if j > 0 { assert segments[j] == segments[1..][j - 1]; }
    }
  }

  /** `splitQuery(uri)` given `uri.getQuery()` (None when the URI has no
      query): no arguments for a missing or blank query; otherwise the
      decoded pairs of every piece, put in order into a LinkedHashMap. */
  function SplitQuery(query: Option<string>, decode: Decoder): (r: Result<Entries, QueryError>)
    ensures query.None? || IsBlank(query.value) ==> r == Ok([])
    ensures r.Ok? ==> Distinct(r.value)
    ensures r.Err? <==> query.Some? && !IsBlank(query.value)
                        && exists i :: 0 <= i < |Segments(query.value)|
                                       && ParsePair(Segments(query.value)[i], decode).Err?
    ensures r.Ok? && query.Some? && !IsBlank(query.value) ==>
              && DecodePairs(Segments(query.value), decode).Ok?
              && r.value == FromPairs(DecodePairs(Segments(query.value), decode).value)
    ensures r.Err? ==> DecodePairs(Segments(query.value), decode) == Err(r.error)
  {
    if query.None? then Ok([])
    else
      TrimEmptyIffBlank(query.value);
      if |Trim(query.value)| == 0 then Ok([])
      else
        match DecodePairs(Segments(query.value), decode)
        case Err(e) => Err(e)
        case Ok(ps) => Ok(FromPairs(ps))
  }

  // ---------------------------------------------------------------------
  // Properties

  /** A piece is cut at its FIRST `=`: the key holds no `=`, and the value
      is everything after it, further `=` signs included. */
  lemma ParsePairAtFirstEquals(key: string, value: string, decode: Decoder)
    requires '=' !in key
    ensures ParsePair(key + "=" + value, decode) ==
              if decode(key).None? then Err(Undecodable(key))
              else if decode(value).None? then Err(Undecodable(value))
              else Ok((decode(key).value, decode(value).value))
  {
    var s := key + "=" + value;
    assert s[..|key|] == key;
    assert s[|key|] == '=';
    assert IndexOf(s, '=') == |key|;
    assert s[|key| + 1..] == value;
  }

  /** A piece with no `=` anywhere among the pieces of a non-blank query
      makes the whole call fail. */
  lemma SegmentWithoutEqualsFails(query: string, decode: Decoder, i: int)
    requires !IsBlank(query)
    requires 0 <= i < |Segments(query)|
    requires '=' !in Segments(query)[i]
    ensures SplitQuery(Some(query), decode).Err?
  {
  }

  /** An empty piece that is not trailing: a query holding `&&`, or opening
      with `&`, followed somewhere by a non-separator character, fails. */
  lemma EmptySegmentFails(before: string, after: string, decode: Decoder, c: int)
    requires |before| == 0 || before[|before| - 1] == '&'
    requires 0 <= c < |after| && after[c] != '&'
    ensures SplitQuery(Some(before + "&" + after), decode).Err?
  {
    var q := before + "&" + after;
    assert q[|before|] == '&';
    assert !IsTrimmable(q[|before|]);
    var i := EmptySegmentKept(before, after, c);
    SegmentWithoutEqualsFails(q, decode, i);
  }

  /** The empty piece of EmptySegmentFails is among the pieces Java keeps. */
  lemma EmptySegmentKept(before: string, after: string, c: int) returns (i: int)
    requires |before| == 0 || before[|before| - 1] == '&'
    requires 0 <= c < |after| && after[c] != '&'
    ensures 0 <= i < |Segments(before + "&" + after)|
    ensures Segments(before + "&" + after)[i] == ""
  {
    SplitEndsEmpty(before);
    var j := NonEmptyPart(after, c);
    i := EmptyPieceKept(before, after, j);
  }

  /** The pieces of `before & after` are those of `before` then those of
      `after`, so an empty last piece of `before` stays when a later piece
      of `after` is not empty. */
  lemma EmptyPieceKept(before: string, after: string, j: int) returns (i: int)
    requires Split(before, '&')[|Split(before, '&')| - 1] == ""
    requires 0 <= j < |Split(after, '&')| && Split(after, '&')[j] != ""
    ensures 0 <= i < |Segments(before + "&" + after)|
    ensures Segments(before + "&" + after)[i] == ""
  {
    i := EmptyBeforeNonEmptyKept(DropTrailingEmpty(Split(before, '&') + Split(after, '&')),
                                 Split(before, '&'), Split(after, '&'), j);
    SegmentsAround(before, after);
  }

  lemma SegmentsAround(before: string, after: string)
    ensures Segments(before + "&" + after) == DropTrailingEmpty(Split(before, '&') + Split(after, '&'))
  {
    var q := before + "&" + after;
    assert q == before + ['&'] + after;
    SplitAround(before, after, '&');
    assert q[|before|] == '&';
  }

  /** An empty last piece of `pa` survives Java's split when some piece of
      `pb` after it is not empty. */
  lemma EmptyBeforeNonEmptyKept(segs: seq<string>, pa: seq<string>, pb: seq<string>, j: int) returns (i: int)
    requires segs == DropTrailingEmpty(pa + pb)
    requires |pa| >= 1 && pa[|pa| - 1] == ""
    requires 0 <= j < |pb| && pb[j] != ""
    ensures 0 <= i < |segs| && segs[i] == ""
  {
    assert (pa + pb)[|pa| + j] == pb[j];
    assert (pa + pb)[|pa| - 1] == pa[|pa| - 1];
    DropKeepsBeforeNonEmpty(pa + pb, |pa| - 1, |pa| + j);
    i := |pa| - 1;
  }

  /** A text that is empty or ends with a separator has an empty last piece. */
  lemma SplitEndsEmpty(s: string)
    requires |s| == 0 || s[|s| - 1] == '&'
    ensures Split(s, '&')[|Split(s, '&')| - 1] == ""
  {
    if |s| > 0 {
      var s' := s[..|s| - 1];
      assert s == s' + ['&'] + "";
      SplitAround(s', "", '&');
      assert Split("", '&') == [""];
      var p := Split(s, '&');
      assert p == Split(s', '&') + [""];
      assert p[|p| - 1] == "";
    } else {
      assert Split(s, '&') == [""];
    }
  }

  /** A text holding a non-separator character has a non-empty piece. */
  lemma NonEmptyPart(s: string, c: int) returns (j: int)
    requires 0 <= c < |s| && s[c] != '&'
    ensures 0 <= j < |Split(s, '&')| && Split(s, '&')[j] != ""
  {
    var p := Split(s, '&');
    if forall j :: 0 <= j < |p| ==> p[j] == "" {
      JoinSplit(s, '&');
      JoinOfEmptyParts(p, '&', c);
      assert false;
    }
    j :| 0 <= j < |p| && p[j] != "";
  }

  /** A trailing `&` is ignored: Java drops the empty last piece. */
  lemma TrailingSeparatorIgnored(query: string, decode: Decoder)
    requires !IsBlank(query)
    ensures SplitQuery(Some(query + "&"), decode) == SplitQuery(Some(query), decode)
  {
    var q' := query + "&";
    assert !IsBlank(q') by {
      var i :| 0 <= i < |query| && !IsTrimmable(query[i]);
      assert q'[i] == query[i];
    }
    TrailingSeparatorDropped(query);
    SameSegmentsSameResult(q', query, decode);
  }

  /** Only the pieces of a non-blank query matter. */
  lemma SameSegmentsSameResult(q1: string, q2: string, decode: Decoder)
    requires !IsBlank(q1) && !IsBlank(q2)
    requires Segments(q1) == Segments(q2)
    ensures SplitQuery(Some(q1), decode) == SplitQuery(Some(q2), decode)
  {
    TrimEmptyIffBlank(q1);
    TrimEmptyIffBlank(q2);
  }

  lemma TrailingSeparatorDropped(query: string)
    requires query != ""
    ensures Segments(query + "&") == Segments(query)
  {
    var q' := query + "&";
    var p := Split(query, '&');
    SplitTrailing(query);
    assert Segments(q') == DropTrailingEmpty(p) by {
      assert '&' in q' by { assert q'[|query|] == '&'; }
      assert (p + [""])[..|p|] == p;
    }
    if '&' !in query {
      assert p == [query];
      assert DropTrailingEmpty(p) == p;
    }
  }

  /** A trailing separator adds one empty piece. */
  lemma SplitTrailing(s: string)
    ensures Split(s + "&", '&') == Split(s, '&') + [""]
  {
    assert s + "&" == s + ['&'] + "";
    SplitAround(s, "", '&');
    assert Split("", '&') == [""];
  }

  /** What a successful call holds, piece by piece: one decoded pair per
      piece, cut at the first `=`; the map has exactly the decoded keys,
      each with the value of its LAST piece, in the order of each key's
      FIRST piece. */
  lemma SplitQueryArguments(query: string, decode: Decoder)
    requires !IsBlank(query)
    ensures SplitQuery(Some(query), decode).Ok? ==>
            var m := SplitQuery(Some(query), decode).value;
            var segs := Segments(query);
            var ps := DecodePairs(segs, decode).value;
            && DecodePairs(segs, decode).Ok?
            && |ps| == |segs|
            && (forall i :: 0 <= i < |ps| ==> ParsePair(segs[i], decode) == Ok(ps[i]))
            && (forall k :: k in Keys(m) <==> k in Keys(ps))
            && (forall i :: 0 <= i < |ps| && (forall j :: i < j < |ps| ==> ps[j].0 != ps[i].0) ==>
                  Get(m, ps[i].0) == Some(ps[i].1))
            && InFirstOccurrenceOrder(m, Keys(ps))
  {
    if SplitQuery(Some(query), decode).Ok? {
      var ps := DecodePairs(Segments(query), decode).value;
      assert SplitQuery(Some(query), decode).value == FromPairs(ps);
      FromPairsFacts(ps);
    }
  }

  /** The map facts of SplitQueryArguments, for any sequence of pairs. */
  lemma FromPairsFacts(ps: Entries)
    ensures forall k :: k in Keys(FromPairs(ps)) <==> k in Keys(ps)
    ensures forall i :: 0 <= i < |ps| && (forall j :: i < j < |ps| ==> ps[j].0 != ps[i].0) ==>
              Get(FromPairs(ps), ps[i].0) == Some(ps[i].1)
    ensures InFirstOccurrenceOrder(FromPairs(ps), Keys(ps))
  {
    FromPairsKeys(ps);
    FromPairsFirstOccurrenceOrder(ps);
    forall i | 0 <= i < |ps| && (forall j :: i < j < |ps| ==> ps[j].0 != ps[i].0)
      ensures Get(FromPairs(ps), ps[i].0) == Some(ps[i].1)
    {
      FromPairsLastWins(ps, i);
    }
  }

  /** Every argument map made of keys without `=` or `&` and values
      without `&` survives being written as `k=v&k=v…` and split again. */
  function Render(args: Entries): string {
    Join(RenderPieces(args), '&')
  }

  function RenderPieces(args: Entries): (pieces: seq<string>)
    ensures |pieces| == |args|
    ensures forall i :: 0 <= i < |args| ==> pieces[i] == args[i].0 + "=" + args[i].1
  {
    seq(|args|, i requires 0 <= i < |args| => args[i].0 + "=" + args[i].1)
  }

  /** Rendering distinct, separator-free pairs as a query and splitting it
      with the verbatim decoder gives the same pairs, in the same order. */
  lemma QueryRoundTrip(args: Entries)
    requires Distinct(args)
    requires forall i :: 0 <= i < |args| ==> '=' !in args[i].0 && '&' !in args[i].0 && '&' !in args[i].1
    ensures SplitQuery(Some(Render(args)), Verbatim) == Ok(args)
  {
    var q := Render(args);
    var pieces := RenderPieces(args);
    if |args| == 0 {
      assert q == "";
    } else {
      RenderedSegments(args);
      forall i | 0 <= i < |pieces| ensures ParsePair(pieces[i], Verbatim) == Ok(args[i]) {
        ParsePairAtFirstEquals(args[i].0, args[i].1, Verbatim);
      }
      assert DecodePairs(pieces, Verbatim).value == args;
      FromPairsOfDistinct(args);
    }
  }

  /** A rendered non-empty argument list is a non-blank query whose pieces
      are exactly the rendered pairs. */
  lemma RenderedSegments(args: Entries)
    requires |args| > 0
    requires forall i :: 0 <= i < |args| ==> '&' !in args[i].0 && '&' !in args[i].1
    ensures !IsBlank(Render(args))
    ensures Segments(Render(args)) == RenderPieces(args)
  {
    var pieces := RenderPieces(args);
    assert Split(Render(args), '&') == pieces by {
      forall i | 0 <= i < |pieces| ensures '&' !in pieces[i] {
        assert pieces[i] == args[i].0 + "=" + args[i].1;
      }
      SplitJoin(pieces, '&');
    }
    assert pieces[|pieces| - 1] != "" by {
      assert pieces[|pieces| - 1] == args[|pieces| - 1].0 + "=" + args[|pieces| - 1].1;
    }
    JavaSplitLastNonEmpty(Render(args), '&');
    RenderedNotBlank(args);
  }

  /** A rendered non-empty argument list holds an `=`, so it is not blank. */
  lemma RenderedNotBlank(args: Entries)
    requires |args| > 0
    ensures !IsBlank(Render(args))
  {
    var q := Render(args);
    var pieces := RenderPieces(args);
    assert q[..|pieces[0]|] == pieces[0] by {
      if |args| > 1 {
        JoinAppend([pieces[0]], pieces[1..], '&');
        assert [pieces[0]] + pieces[1..] == pieces;
      }
    }
    assert pieces[0][|args[0].0|] == '=';
    assert q[|args[0].0|] == '=';
  }

  /** The query of `/foo?bar=1&baz=two word` gives `bar` -> `1` and
      `baz` -> `two word`, in that order. */
  lemma ExampleQuery()
    ensures SplitQuery(Some("bar=1&baz=two word"), Verbatim) == Ok([("bar", "1"), ("baz", "two word")])
  {
    ExampleRendered();
    QueryRoundTrip([("bar", "1"), ("baz", "two word")]);
  }

  lemma ExampleRendered()
    ensures Render([("bar", "1"), ("baz", "two word")]) == "bar=1&baz=two word"
  {
    var pieces := RenderPieces([("bar", "1"), ("baz", "two word")]);
    assert pieces[0] == "bar=1" && pieces[1] == "baz=two word";
    assert pieces == ["bar=1", "baz=two word"];
  }
}
