/**
  The callback request parser and the query-string builder of src/util.rs:
  `split_querystring`, `get_request_path`, `diagnose_http_request`,
  `build_query_string` and `MapHelper::get_string`.
*/
module QueryString {
  import opened Wrappers
  import opened Strings
  import opened PercentCoding

  type Query = map<string, string>

  /** The key of a `key=value` pair: the text before the first `=`, never decoded. */
  function KeyOf(pair: string): string {
    TakeUntil(pair, '=')
  }

  /**
    One pair of `split_querystring`: `pair.split("=")` gives the key (first
    piece) and the raw value (second piece, which stops at a second `=`);
    the value is percent-decoded. None where the source panics: no `=` (the
    second `next().unwrap()` fails) or a value `urldecode` panics on.
  */
  function ParsePair(pair: string): Option<(string, string)>
  {
    var pieces := Split(pair, '=');
    if |pieces| < 2 then None
    else match Decoded(pieces[1])
      case None => None
      case Some(v) => Some((pieces[0], v))
  }

  /**
    A pair parses exactly when it holds an `=` and the text between the
    first `=` and the next (or the end) decodes; the key is the text before
    the first `=`, undecoded.
  */
  lemma ParsePairMeaning(pair: string)
    ensures ParsePair(pair).Some? <==> '=' in pair && Decoded(TakeUntil(AfterFirst(pair, '='), '=')).Some?
    ensures ParsePair(pair).Some? ==>
      && ParsePair(pair).value.0 == KeyOf(pair)
      && Some(ParsePair(pair).value.1) == Decoded(TakeUntil(AfterFirst(pair, '='), '='))
  {
    if '=' in pair {
      assert Split(pair, '=') == [TakeUntil(pair, '=')] + Split(AfterFirst(pair, '='), '=');
    }
  }

  /** Each pair of `split_querystring` parsed on its own. */
  function Parsed(pairs: seq<string>): (r: seq<Option<(string, string)>>)
    ensures |r| == |pairs|
    ensures forall j :: 0 <= j < |pairs| ==> r[j] == ParsePair(pairs[j])
  {
    seq(|pairs|, j requires 0 <= j < |pairs| => ParsePair(pairs[j]))
  }

  /**
    The insert loop of `split_querystring` over parsed pairs, in order: each
    key and value goes into the map, and the first pair that fails stops it.
  */
  function InsertAll(parsed: seq<Option<(string, string)>>): Option<Query>
  {
    if parsed == [] then Some(map[])
    else match InsertAll(parsed[..|parsed| - 1])
      case None => None
      case Some(m) =>
        match parsed[|parsed| - 1]
        case None => None
        case Some(kv) => Some(m[kv.0 := kv.1])
  }

  /** The map `split_querystring` builds from the pairs, or None where it panics. */
  function Fold(pairs: seq<string>): Option<Query>
  {
    InsertAll(Parsed(pairs))
  }

  /** What `split_querystring(url)` returns, or None where it panics. */
  function QueryOf(url: string): Option<Query>
  {
    if '?' !in url then Some(map[])
    else Fold(Split(AfterFirst(url, '?'), '&'))
  }

  /**
    A URL without `?` has the empty query; otherwise the query is defined
    exactly when every `&`-separated pair after the first `?` parses.
  */
  lemma QueryOfMeaning(url: string)
    ensures '?' !in url ==> QueryOf(url) == Some(map[])
    ensures '?' in url ==>
      (QueryOf(url).Some? <==> forall j :: 0 <= j < |Split(AfterFirst(url, '?'), '&')| ==> ParsePair(Split(AfterFirst(url, '?'), '&')[j]).Some?)
  {
    if '?' in url {
      assert QueryOf(url) == Fold(Split(AfterFirst(url, '?'), '&'));
      FoldDefinedIff(Split(AfterFirst(url, '?'), '&'));
    }
  }

  /** `split_querystring`: inserts each decoded pair into a map in a loop. */
  method SplitQuerystring(url: string) returns (r: Option<Query>)
    requires IsAscii(url)
    ensures r == QueryOf(url)
  {
    if '?' !in url {
      return Some(map[]);
    }
    var querystring := AfterFirst(url, '?');
    var pairs := Split(querystring, '&');
    var query := map[];
    ghost var parsed := Parsed(pairs);
    for j := 0 to |pairs|
      invariant InsertAll(parsed[..j]) == Some(query)
    {
      var pieces := Split(pairs[j], '=');
      if |pieces| < 2 {
        assert ParsePair(pairs[j]) == None;
        FoldStopsAt(pairs, j);
        return None;
      }
      var value := UrlDecode(pieces[1]);
      if value.None? {
        assert ParsePair(pairs[j]) == None;
        FoldStopsAt(pairs, j);
        return None;
      }
      assert ParsePair(pairs[j]) == Some((pieces[0], value.value));
      FoldStep(parsed, j, query, pieces[0], value.value);
      query := query[pieces[0] := value.value];
    }
    assert parsed[..|pairs|] == parsed;
    assert QueryOf(url) == Fold(pairs) == InsertAll(parsed);
    return Some(query);
  }

  /** One pass of the loop: a pair that parses inserts its key and value into the map built so far. */
  lemma FoldStep(parsed: seq<Option<(string, string)>>, j: nat, query: Query, k: string, v: string)
    requires j < |parsed| && InsertAll(parsed[..j]) == Some(query)
    requires parsed[j] == Some((k, v))
    ensures InsertAll(parsed[..j + 1]) == Some(query[k := v])
  {
    assert parsed[..j + 1][..j] == parsed[..j];
  }

  /** One pair without `=` or with a bad escape makes the whole parse fail. */
  lemma FoldStopsAt(pairs: seq<string>, j: nat)
    requires j < |pairs| && ParsePair(pairs[j]).None?
    ensures Fold(pairs) == None
  {
    FoldDefinedIff(pairs);
  }

  /** The insertions run to the end exactly when every pair parses. */
  lemma {:induction false} InsertAllDefinedIff(parsed: seq<Option<(string, string)>>)
    ensures InsertAll(parsed).Some? <==> forall j :: 0 <= j < |parsed| ==> parsed[j].Some?
  {
    if parsed != [] {
      var n := |parsed| - 1;
      var init := parsed[..n];
      InsertAllDefinedIff(init);
      assert forall j :: 0 <= j < n ==> init[j] == parsed[j];
    }
  }

  /** The loop runs to the end (does not panic) exactly when every pair parses. */
  lemma FoldDefinedIff(pairs: seq<string>)
    ensures Fold(pairs).Some? <==> forall j :: 0 <= j < |pairs| ==> ParsePair(pairs[j]).Some?
  {
    InsertAllDefinedIff(Parsed(pairs));
  }

  /** The keys of the inserted map are exactly the keys of the parsed pairs. */
  lemma {:induction false} InsertAllKeys(parsed: seq<Option<(string, string)>>)
    requires InsertAll(parsed).Some?
    ensures forall j :: 0 <= j < |parsed| ==> parsed[j].Some?
    ensures forall k :: k in InsertAll(parsed).value <==> exists j :: 0 <= j < |parsed| && parsed[j].value.0 == k
  {
    InsertAllDefinedIff(parsed);
    if parsed != [] {
      var n := |parsed| - 1;
      var init := parsed[..n];
      InsertAllKeys(init);
      assert forall j :: 0 <= j < n ==> init[j] == parsed[j];
      forall k | k in InsertAll(parsed).value
        ensures exists j :: 0 <= j < |parsed| && parsed[j].value.0 == k
      {
        if k != parsed[n].value.0 {
          var j :| 0 <= j < n && init[j].value.0 == k;
        }
      }
    }
  }

  /** The keys of the result are exactly the keys of the pairs. */
  lemma FoldKeys(pairs: seq<string>)
    requires Fold(pairs).Some?
    ensures forall k :: k in Fold(pairs).value <==> exists j :: 0 <= j < |pairs| && KeyOf(pairs[j]) == k
  {
    var parsed := Parsed(pairs);
    InsertAllKeys(parsed);
    forall j | 0 <= j < |pairs|
      ensures parsed[j].value.0 == KeyOf(pairs[j])
    {
      ParsePairMeaning(pairs[j]);
    }
  }

  /** A later key overwrites an earlier one: the value kept is that of the last pair with the key. */
  lemma {:induction false} InsertAllLastWins(parsed: seq<Option<(string, string)>>, j: nat)
    requires InsertAll(parsed).Some? && j < |parsed| && parsed[j].Some?
    requires forall l :: j < l < |parsed| ==> parsed[l].Some? && parsed[l].value.0 != parsed[j].value.0
    ensures parsed[j].value.0 in InsertAll(parsed).value
    ensures InsertAll(parsed).value[parsed[j].value.0] == parsed[j].value.1
  {
    var n := |parsed| - 1;
    var init := parsed[..n];
    if j < n {
      assert forall l :: j <= l < n ==> init[l] == parsed[l];
      InsertAllLastWins(init, j);
    }
  }

  /** A later duplicate key overwrites an earlier one: the value kept is that of the last pair with the key. */
  lemma FoldLastWins(pairs: seq<string>, j: nat)
    requires Fold(pairs).Some? && j < |pairs|
    requires forall l :: j < l < |pairs| ==> KeyOf(pairs[l]) != KeyOf(pairs[j])
    ensures ParsePair(pairs[j]).Some?
    ensures KeyOf(pairs[j]) in Fold(pairs).value
    ensures Fold(pairs).value[KeyOf(pairs[j])] == ParsePair(pairs[j]).value.1
  {
    var parsed := Parsed(pairs);
    InsertAllDefinedIff(parsed);
    forall l | 0 <= l < |pairs|
      ensures parsed[l].value.0 == KeyOf(pairs[l])
    {
      ParsePairMeaning(pairs[l]);
    }
    InsertAllLastWins(parsed, j);
  }

  /** The pair `k=raw` parses to `k` and the decoding of `raw`, when neither holds an `=`. */
  lemma ParseField(k: string, raw: string)
    requires '=' !in k && '=' !in raw
    ensures ParsePair(k + "=" + raw) == match Decoded(raw) case None => None case Some(v) => Some((k, v))
  {
    var pair := k + "=" + raw;
    assert pair == k + ['='] + raw;
    CutAtFirst(k, raw, '=');
    assert Split(pair, '=') == [k] + Split(raw, '=');
    assert Split(raw, '=') == [raw];
    assert Split(pair, '=') == [k, raw];
  }

  /** The left-to-right insertion of key/value pairs into an empty map. */
  function MapOf(kvs: seq<(string, string)>): Query
  {
    if kvs == [] then map[] else MapOf(kvs[..|kvs| - 1])[kvs[|kvs| - 1].0 := kvs[|kvs| - 1].1]
  }

  /** Insertions of the entries `kvs`, one by one, give the map of `kvs`. */
  lemma {:induction false} InsertAllParsed(parsed: seq<Option<(string, string)>>, kvs: seq<(string, string)>)
    requires |parsed| == |kvs|
    requires forall i :: 0 <= i < |parsed| ==> parsed[i] == Some(kvs[i])
    ensures InsertAll(parsed) == Some(MapOf(kvs))
  {
    if parsed != [] {
      var n := |parsed| - 1;
      assert forall i :: 0 <= i < n ==> parsed[..n][i] == parsed[i] && kvs[..n][i] == kvs[i];
      InsertAllParsed(parsed[..n], kvs[..n]);
    }
  }

  /** Pairs that parse one by one to `kvs` fold to the map of `kvs`. */
  lemma FoldParsed(fields: seq<string>, kvs: seq<(string, string)>)
    requires |fields| == |kvs|
    requires forall i :: 0 <= i < |fields| ==> ParsePair(fields[i]) == Some(kvs[i])
    ensures Fold(fields) == Some(MapOf(kvs))
  {
    InsertAllParsed(Parsed(fields), kvs);
  }

  /** A url whose query part is fields joined by `&` is parsed field by field. */
  lemma QueryOfJoined(prefix: string, fields: seq<string>)
    requires '?' !in prefix && |fields| >= 1
    requires forall i :: 0 <= i < |fields| ==> '&' !in fields[i]
    ensures QueryOf(prefix + "?" + Join(fields, '&')) == Fold(fields)
  {
    CutAtFirst(prefix, Join(fields, '&'), '?');
    SplitJoin(fields, '&');
  }

  /** A `key=value` field of `build_query_string`: the value urlencoded, the key verbatim. */
  function Field(kv: (string, string)): string {
    kv.0 + "=" + Encoded(kv.1)
  }

  function FieldsOf(kvs: seq<(string, string)>): (r: seq<string>)
    ensures |r| == |kvs|
  {
    if kvs == [] then [] else FieldsOf(kvs[..|kvs| - 1]) + [Field(kvs[|kvs| - 1])]
  }

  lemma {:induction false} FieldsOfAt(kvs: seq<(string, string)>, i: nat)
    requires i < |kvs|
    ensures FieldsOf(kvs)[i] == Field(kvs[i])
  {
    if i < |kvs| - 1 {
      FieldsOfAt(kvs[..|kvs| - 1], i);
    }
  }

  /** What `build_query_string` returns for the map entries in iteration order `kvs`. */
  function QueryStringOf(kvs: seq<(string, string)>): string {
    if kvs == [] then "" else "?" + Join(FieldsOf(kvs), '&')
  }

  /** `build_query_string`: pushes `?` or `&`, the key, `=` and the urlencoded value in a loop. */
  method BuildQueryString(params: seq<(string, string)>) returns (query: string)
    ensures query == QueryStringOf(params)
  {
    query := "";
    for i := 0 to |params|
      invariant query == QueryStringOf(params[..i])
    {
      var (key, value) := params[i];
      if query == "" {
        query := query + "?";
      } else {
        query := query + "&";
      }
      query := query + key + "=";
      var encoded := UrlEncode(value);
      query := query + encoded;
      QueryStringSnoc(params, i);
    }
    assert params[..|params|] == params;
  }

  /** One more entry adds `?` (first) or `&` (later) and its field. */
  lemma QueryStringSnoc(kvs: seq<(string, string)>, i: nat)
    requires i < |kvs|
    ensures QueryStringOf(kvs[..i]) == "" <==> i == 0
    ensures QueryStringOf(kvs[..i + 1]) == QueryStringOf(kvs[..i]) + (if i == 0 then "?" else "&") + Field(kvs[i])
  {
    var pre := kvs[..i];
    assert kvs[..i + 1][..i] == pre;
    var fields := FieldsOf(pre);
    assert FieldsOf(kvs[..i + 1]) == fields + [Field(kvs[i])];
    if i > 0 {
      JoinSnoc(fields, Field(kvs[i]), '&');
      assert QueryStringOf(pre) == "?" + Join(fields, '&');
      assert QueryStringOf(kvs[..i + 1]) == "?" + Join(fields + [Field(kvs[i])], '&');
    } else {
      assert fields + [Field(kvs[i])] == [Field(kvs[i])];
    }
  }

  lemma FieldParses(kv: (string, string))
    requires '&' !in kv.0 && '=' !in kv.0 && IsLatin1(kv.1)
    ensures ParsePair(Field(kv)) == Some(kv) && '&' !in Field(kv)
  {
    EncodedIsSafe(kv.1);
    RoundTrip(kv.1);
    ParseField(kv.0, Encoded(kv.1));
  }

  lemma FieldsParse(kvs: seq<(string, string)>)
    requires forall i :: 0 <= i < |kvs| ==> '&' !in kvs[i].0 && '=' !in kvs[i].0 && IsLatin1(kvs[i].1)
    ensures forall i :: 0 <= i < |kvs| ==> ParsePair(FieldsOf(kvs)[i]) == Some(kvs[i]) && '&' !in FieldsOf(kvs)[i]
  {
    forall i | 0 <= i < |kvs|
      ensures ParsePair(FieldsOf(kvs)[i]) == Some(kvs[i]) && '&' !in FieldsOf(kvs)[i]
    {
      FieldsOfAt(kvs, i);
      FieldParses(kvs[i]);
    }
  }

  lemma QueryOfQueryString(base: string, kvs: seq<(string, string)>)
    requires '?' !in base && kvs != []
    requires forall i :: 0 <= i < |kvs| ==> '&' !in FieldsOf(kvs)[i]
    ensures QueryOf(base + QueryStringOf(kvs)) == Fold(FieldsOf(kvs))
  {
    assert QueryStringOf(kvs) == "?" + Join(FieldsOf(kvs), '&');
    QueryOfPrefixed(base, QueryStringOf(kvs), FieldsOf(kvs));
  }

  /** A query part that is `?` and the fields joined by `&` is parsed field by field. */
  lemma QueryOfPrefixed(base: string, q: string, fields: seq<string>)
    requires '?' !in base && |fields| >= 1
    requires forall i :: 0 <= i < |fields| ==> '&' !in fields[i]
    requires q == "?" + Join(fields, '&')
    ensures QueryOf(base + q) == Fold(fields)
  {
    assert base + q == base + "?" + Join(fields, '&');
    QueryOfJoined(base, fields);
  }

  /**
    Parsing what `build_query_string` builds, after any base without `?`,
    gives back the entries, when keys hold neither `&` nor `=`.
  */
  lemma BuildQueryRoundTrip(base: string, kvs: seq<(string, string)>)
    requires '?' !in base
    requires forall i :: 0 <= i < |kvs| ==> '&' !in kvs[i].0 && '=' !in kvs[i].0 && IsLatin1(kvs[i].1)
    ensures QueryOf(base + QueryStringOf(kvs)) == Some(MapOf(kvs))
  {
    if kvs != [] {
      FieldsParse(kvs);
      QueryOfQueryString(base, kvs);
      FoldParsed(FieldsOf(kvs), kvs);
    } else {
      assert base + QueryStringOf(kvs) == base;
    }
  }

  /** `kvs` is one iteration of the map `m`: each key of `m` exactly once, with its value. */
  predicate Enumerates(kvs: seq<(string, string)>, m: Query) {
    && DistinctKeys(kvs)
    && (forall i :: 0 <= i < |kvs| ==> kvs[i].0 in m && m[kvs[i].0] == kvs[i].1)
    && (forall k :: k in m ==> exists i :: 0 <= i < |kvs| && kvs[i].0 == k)
  }

  /** The keys of the map of some entries are exactly the keys of those entries. */
  lemma {:induction false} MapOfKeys(kvs: seq<(string, string)>)
    ensures forall k :: k in MapOf(kvs) <==> exists i :: 0 <= i < |kvs| && kvs[i].0 == k
  {
    if kvs != [] {
      var n := |kvs| - 1;
      var init := kvs[..n];
      MapOfKeys(init);
      assert forall i :: 0 <= i < n ==> init[i] == kvs[i];
    }
  }

  /** No key occurs twice among the entries. */
  predicate DistinctKeys(kvs: seq<(string, string)>) {
    forall i, j :: 0 <= i < j < |kvs| ==> kvs[i].0 != kvs[j].0
  }

  /** Entries with distinct keys give a map in which each listed key holds its own value. */
  lemma {:induction false} MapOfDistinct(kvs: seq<(string, string)>)
    requires DistinctKeys(kvs)
    ensures forall i :: 0 <= i < |kvs| ==> kvs[i].0 in MapOf(kvs) && MapOf(kvs)[kvs[i].0] == kvs[i].1
  {
    if kvs != [] {
      var n := |kvs| - 1;
      var init := kvs[..n];
      var last := kvs[n];
      assert DistinctKeys(init) by {
        assert forall i :: 0 <= i < n ==> init[i] == kvs[i];
      }
      MapOfDistinct(init);
      assert MapOf(kvs) == MapOf(init)[last.0 := last.1];
      forall i | 0 <= i < |kvs|
        ensures kvs[i].0 in MapOf(kvs) && MapOf(kvs)[kvs[i].0] == kvs[i].1
      {
        if i < n {
          assert init[i] == kvs[i] && kvs[i].0 != last.0;
        }
      }
    }
  }

  /** The entries of an iteration of `m` build `m` back. */
  lemma MapOfEnumeration(kvs: seq<(string, string)>, m: Query)
    requires Enumerates(kvs, m)
    ensures MapOf(kvs) == m
  {
    MapOfKeys(kvs);
    MapOfDistinct(kvs);
    assert MapOf(kvs).Keys == m.Keys;
  }

  /**
    `split_querystring` after any base without `?` gives back the map that
    `build_query_string` iterated, whatever the iteration order, when keys
    hold neither `&` nor `=` and values are Latin-1.
  */
  lemma BuildQueryMapRoundTrip(base: string, m: Query, kvs: seq<(string, string)>)
    requires '?' !in base
    requires Enumerates(kvs, m)
    requires forall k :: k in m ==> '&' !in k && '=' !in k && IsLatin1(m[k])
    ensures QueryOf(base + QueryStringOf(kvs)) == Some(m)
  {
    BuildQueryRoundTrip(base, kvs);
    MapOfEnumeration(kvs, m);
  }

  /** `key=raw` texts for pairs whose values are already escaped, as a browser or a format string writes them. */
  function PairTexts(raws: seq<(string, string)>): (r: seq<string>)
    ensures |r| == |raws|
  {
    if raws == [] then [] else PairTexts(raws[..|raws| - 1]) + [raws[|raws| - 1].0 + "=" + raws[|raws| - 1].1]
  }

  /** The `i`-th text is the `i`-th pair written `name=value`. */
  lemma {:induction false} PairTextsAt(raws: seq<(string, string)>)
    ensures forall i :: 0 <= i < |raws| ==> PairTexts(raws)[i] == raws[i].0 + "=" + raws[i].1
  {
    if raws != [] {
      var init := raws[..|raws| - 1];
      PairTextsAt(init);
      assert forall i :: 0 <= i < |init| ==> init[i] == raws[i];
    }
  }

  /** `raw` is the written form of the entry `kv`: the same key, no separator inside, and a value that decodes to `kv`'s. */
  predicate Writes(raw: (string, string), kv: (string, string)) {
    && raw.0 == kv.0
    && '&' !in raw.0 && '=' !in raw.0 && '&' !in raw.1 && '=' !in raw.1
    && Decoded(raw.1) == Some(kv.1)
  }

  /** A query written field by field parses to the map of the entries it writes. */
  lemma RawQueryParses(base: string, raws: seq<(string, string)>, kvs: seq<(string, string)>)
    requires '?' !in base && |raws| == |kvs| && raws != []
    requires forall i :: 0 <= i < |raws| ==> Writes(raws[i], kvs[i])
    ensures QueryOf(base + "?" + Join(PairTexts(raws), '&')) == Some(MapOf(kvs))
  {
    var fields := PairTexts(raws);
    PairTextsAt(raws);
    forall i | 0 <= i < |raws|
      ensures ParsePair(fields[i]) == Some(kvs[i]) && '&' !in fields[i]
    {
      ParseField(raws[i].0, raws[i].1);
    }
    QueryOfJoined(base, fields);
    FoldParsed(fields, kvs);
  }

  /**
    `get_request_path`: the second space-separated token of a line that
    starts with `GET /`, else the empty string.
  */
  function GetRequestPath(line: string): (path: string)
    ensures path == "" <==> !StartsWith(line, "GET /")
    ensures StartsWith(line, "GET /") ==> path == TakeUntil(line[4..], ' ') && path[0] == '/'
    ensures IsAscii(line) ==> IsAscii(path)
  {
    if !StartsWith(line, "GET /") then ""
    else
      RequestLineCut(line);
      Split(line, ' ')[1]
  }

  lemma RequestLineCut(line: string)
    requires StartsWith(line, "GET /")
    ensures ' ' in line && |Split(line, ' ')| >= 2
    ensures Split(line, ' ')[1] == TakeUntil(line[4..], ' ')
    ensures line[4] == '/' && TakeUntil(line[4..], ' ') != [] && TakeUntil(line[4..], ' ')[0] == '/'
  {
    assert line[..5] == "GET /";
    assert line[3] == ' ' && line[4] == '/';
    assert line == "GET" + [' '] + line[4..];
    CutAtFirst("GET", line[4..], ' ');
    assert AfterFirst(line, ' ') == line[4..];
    assert Split(line, ' ') == [TakeUntil(line, ' ')] + Split(line[4..], ' ');
  }

  /** A request line `GET <path> <version>` yields its path. */
  lemma RequestLinePath(path: string, version: string)
    requires StartsWith(path, "/") && ' ' !in path
    ensures GetRequestPath("GET " + path + " " + version) == path
  {
    var line := "GET " + path + " " + version;
    assert line[..5] == "GET /";
    assert line[4..] == path + [' '] + version;
    CutAtFirst(path, version, ' ');
  }

  /** What `diagnose_http_request(lines)` returns, or None where it panics. */
  function RequestQuery(lines: seq<string>): Option<Query>
  {
    if lines == [] then Some(map[])
    else if GetRequestPath(lines[0]) == "" then RequestQuery(lines[1..])
    else QueryOf(GetRequestPath(lines[0]))
  }

  /** `diagnose_http_request`: the first line that yields a path decides the result. */
  method DiagnoseHttpRequest(lines: seq<string>) returns (r: Option<Query>)
    requires forall i :: 0 <= i < |lines| ==> IsAscii(lines[i])
    ensures r == RequestQuery(lines)
  {
    for i := 0 to |lines|
      invariant RequestQuery(lines[i..]) == RequestQuery(lines)
    {
      var url := GetRequestPath(lines[i]);
      if url == "" {
        assert lines[i..][1..] == lines[i + 1..];
        continue;
      }
      r := SplitQuerystring(url);
      return;
    }
    return Some(map[]);
  }

  /** The query of the first line starting with `GET /` is the result; lines before it are skipped. */
  lemma {:induction false} RequestQueryFirstGet(lines: seq<string>, j: nat)
    requires j < |lines| && StartsWith(lines[j], "GET /")
    requires forall i :: 0 <= i < j ==> !StartsWith(lines[i], "GET /")
    ensures RequestQuery(lines) == QueryOf(GetRequestPath(lines[j]))
  {
    if j > 0 {
      assert !StartsWith(lines[0], "GET /");
      RequestQueryFirstGet(lines[1..], j - 1);
    }
  }

  /** Without a line starting with `GET /` the result is the empty map. */
  lemma {:induction false} RequestQueryNoGet(lines: seq<string>)
    requires forall i :: 0 <= i < |lines| ==> !StartsWith(lines[i], "GET /")
    ensures RequestQuery(lines) == Some(map[])
  {
    if lines != [] {
      assert !StartsWith(lines[0], "GET /");
      RequestQueryNoGet(lines[1..]);
    }
  }

  /** `MapHelper::get_string`: the value under `key`, or the empty string when it is absent. */
  function GetString(m: Query, key: string): (r: string)
    ensures key in m ==> r == m[key]
    ensures key !in m ==> r == ""
  {
    if key !in m then "" else m[key]
  }
}
