/** `parseQuery`: the query string of a URL path as a map from decoded keys to
  * decoded values, filled pair by pair so that a later pair overwrites an
  * earlier one with the same key. */
module QueryParser {
  import opened Wrappers
  import opened JavaStrings
  import opened UrlDecoder

  /** The text after the first `?`, or `None` when there is no `?` or the
    * first `?` is the path's last char. */
  function QueryString(urlPath: string): (r: Option<string>)
    ensures r.None? <==> '?' !in urlPath || (urlPath[|urlPath| - 1] == '?' && '?' !in urlPath[..|urlPath| - 1])
    ensures r.Some? ==> r.value != [] && Before(urlPath, '?') + "?" + r.value == urlPath
  {
    IndexOfChar(urlPath, '?');
    var q := IndexOf(urlPath, "?");
    if q < 0 || q == |urlPath| - 1 then None
    else
      assert urlPath == urlPath[..q] + "?" + urlPath[q + 1..];
      Some(urlPath[q + 1..])
  }

  /** A non-empty pair: the text before its first `=` as the key and the rest
    * as the value (`""` when there is no `=`), both decoded. */
  function DecodePair(pair: string): Result<(string, string), DecodeError>
  {
    var (key, val) := SplitAtFirst(pair, '=');
    match UrlDecode(key)
    case Err(e) => Err(e)
    case Ok(k) =>
      match UrlDecode(val)
      case Err(e) => Err(e)
      case Ok(v) => Ok((k, v))
  }

  /** The map after the loop has seen `pairs`, or the decoder's exception. */
  function Fill(pairs: seq<string>): Result<map<string, string>, DecodeError>
  {
    if pairs == [] then Ok(map[])
    else
      match Fill(pairs[..|pairs| - 1])
      case Err(e) => Err(e)
      case Ok(m) =>
        var pair := pairs[|pairs| - 1];
        if pair == "" then Ok(m)
        else
          match DecodePair(pair)
          case Err(e) => Err(e)
          case Ok((k, v)) => Ok(m[k := v])
  }

  /** What `parseQuery(urlPath)` returns, or the exception it throws. */
  function Query(urlPath: string): Result<map<string, string>, DecodeError>
  {
    match QueryString(urlPath)
    case None => Ok(map[])
    case Some(qs) => Fill(Split(qs, "&"))
  }

  method ParseQuery(urlPath: string) returns (r: Result<map<string, string>, DecodeError>)
    ensures r == Query(urlPath)
    ensures QueryString(urlPath).None? ==> r == Ok(map[])
  {
    var m: map<string, string> := map[];
    var q := IndexOf(urlPath, "?");
    if q < 0 || q == |urlPath| - 1 {
      return Ok(m);
    }
    var qs := urlPath[q + 1..];
    var pairs := Split(qs, "&");
    assert qs == QueryString(urlPath).value;
    for i := 0 to |pairs|
      invariant Fill(pairs[..i]) == Ok(m)
    {
      ghost var done := pairs[..i + 1];
      assert done[..i] == pairs[..i] && done[i] == pairs[i];
      var pair := pairs[i];
      if pair == "" {
        continue;
      }
      var eq := IndexOf(pair, "=");
      var key, val;
      if eq >= 0 {
        key, val := pair[..eq], pair[eq + 1..];
      } else {
        key, val := pair, "";
      }
      IndexOfChar(pair, '=');
      assert (key, val) == SplitAtFirst(pair, '=');
      var k := UrlDecode(key);
      if k.Err? {
        FillErrPersists(pairs, i + 1);
        return Err(k.error);
      }
      var v := UrlDecode(val);
      if v.Err? {
        FillErrPersists(pairs, i + 1);
        return Err(v.error);
      }
      m := m[k.value := v.value];
    }
    assert pairs[..|pairs|] == pairs;
    return Ok(m);
  }

  /** Once a pair throws, the whole loop throws the same exception. */
  lemma {:induction false} FillErrPersists(ps: seq<string>, n: nat)
    requires n <= |ps| && Fill(ps[..n]).Err?
    ensures Fill(ps) == Fill(ps[..n])
    decreases |ps|
  {
    if n < |ps| {
      var init := ps[..|ps| - 1];
      assert init[..n] == ps[..n];
      FillErrPersists(init, n);
    } else {
      assert ps[..n] == ps;
    }
  }

  /** `pair` is empty, so skipped, or decodes. */
  predicate PairDecodes(pair: string)
  {
    pair != "" ==> DecodePair(pair).Ok?
  }

  /** The loop finishes exactly when every non-empty pair decodes. */
  lemma {:induction false} FillOk(ps: seq<string>)
    ensures Fill(ps).Ok? <==> forall i :: 0 <= i < |ps| ==> PairDecodes(ps[i])
  {
    if ps != [] {
      FillOk(ps[..|ps| - 1]);
      AllSnoc(ps, PairDecodes);
    }
  }

  /** `pair` is a non-empty pair that decodes with key `k`. */
  predicate PairHasKey(pair: string, k: string)
  {
    pair != "" && DecodePair(pair).Ok? && DecodePair(pair).value.0 == k
  }

  /** Some pair of `ps` has key `k`. */
  predicate HasKey(ps: seq<string>, k: string)
  {
    exists i :: 0 <= i < |ps| && PairHasKey(ps[i], k)
  }

  /** The keys of the map are exactly the decoded keys of the non-empty pairs. */
  lemma {:induction false} FillKeys(ps: seq<string>, m: map<string, string>)
    requires Fill(ps) == Ok(m)
    ensures forall k :: k in m <==> HasKey(ps, k)
  {
    if ps != [] {
      var init := ps[..|ps| - 1];
      var m0 := Fill(init).value;
      FillKeys(init, m0);
      FillKeysStep(ps, m0, m);
      forall k
        ensures HasKey(ps, k) <==> HasKey(init, k) || PairHasKey(ps[|ps| - 1], k)
      {
        HasKeySnoc(ps, k);
      }
    }
  }

  /** One more pair adds its key, if it has one, to the keys so far. */
  lemma FillKeysStep(ps: seq<string>, m0: map<string, string>, m: map<string, string>)
    requires ps != [] && Fill(ps[..|ps| - 1]) == Ok(m0) && Fill(ps) == Ok(m)
    ensures forall k :: k in m <==> k in m0 || PairHasKey(ps[|ps| - 1], k)
  {
  }

  lemma HasKeySnoc(ps: seq<string>, k: string)
    requires ps != []
    ensures HasKey(ps, k) <==> HasKey(ps[..|ps| - 1], k) || PairHasKey(ps[|ps| - 1], k)
  {
    ExistsSnoc(ps, pair => PairHasKey(pair, k));
  }

  /** A key repeated in the query holds the value of its last occurrence. */
  lemma {:induction false} FillLastWins(ps: seq<string>, m: map<string, string>, i: nat, k: string, v: string)
    requires Fill(ps) == Ok(m)
    requires i < |ps| && ps[i] != "" && DecodePair(ps[i]) == Ok((k, v))
    requires forall j :: i < j < |ps| ==> !PairHasKey(ps[j], k)
    ensures k in m && m[k] == v
  {
    var init := ps[..|ps| - 1];
    var m0 := FillInit(ps, m);
    if i < |ps| - 1 {
      AllAfterSnoc(ps, i, pair => !PairHasKey(pair, k));
      assert init[i] == ps[i];
      FillLastWins(init, m0, i, k, v);
    }
  }

  /** The map before the last pair, and how the last pair changes it. */
  lemma FillInit(ps: seq<string>, m: map<string, string>) returns (m0: map<string, string>)
    requires ps != [] && Fill(ps) == Ok(m)
    ensures Fill(ps[..|ps| - 1]) == Ok(m0)
    ensures ps[|ps| - 1] == "" ==> m == m0
    ensures ps[|ps| - 1] != "" ==>
      DecodePair(ps[|ps| - 1]).Ok? && m == m0[DecodePair(ps[|ps| - 1]).value.0 := DecodePair(ps[|ps| - 1]).value.1]
  {
    m0 := Fill(ps[..|ps| - 1]).value;
  }

  lemma {:induction false} FillEmptyTail(ps: seq<string>, n: nat)
    requires n <= |ps| && forall j :: n <= j < |ps| ==> ps[j] == ""
    ensures Fill(ps[..n]) == Fill(ps)
    decreases |ps|
  {
    if n < |ps| {
      var init := ps[..|ps| - 1];
      assert init[..n] == ps[..n];
      FillEmptyTail(init, n);
    } else {
      assert ps[..n] == ps;
    }
  }

  /** Since empty pairs are skipped, the trailing empty strings that `split`
    * drops make no difference: the query is filled from every piece between
    * the `&`s of the query string. */
  lemma QueryPieces(urlPath: string, qs: string)
    requires QueryString(urlPath) == Some(qs)
    ensures Query(urlPath) == Fill(Pieces(qs, "&"))
    ensures Join(Pieces(qs, "&"), "&") == qs
  {
    var ps := Pieces(qs, "&");
    if IndexOf(qs, "&") >= 0 {
      FillEmptyTail(ps, |DropTrailingEmpty(ps)|);
    }
  }

  /** `/?a=1&a=2` gives `{a: "2"}`. */
  lemma RepeatedKeyExample()
    ensures Query("/?a=1&a=2") == Ok(map["a" := "2"])
  {
    RepeatedKeyPieces();
    QueryPieces("/?a=1&a=2", "a=1&a=2");
    RepeatedKeyFill();
  }

  lemma RepeatedKeyFill()
    ensures Fill(["a=1", "a=2"]) == Ok(map["a" := "2"])
  {
    var ps := ["a=1", "a=2"];
    RepeatedKeyPairs();
    assert ps[..1] == ["a=1"];
    assert ["a=1"][..0] == [];
    assert Fill(["a=1"]) == Ok(map["a" := "1"]);
    assert map["a" := "1"]["a" := "2"] == map["a" := "2"];
  }

  lemma RepeatedKeyPieces()
    ensures QueryString("/?a=1&a=2") == Some("a=1&a=2")
    ensures Pieces("a=1&a=2", "&") == ["a=1", "a=2"]
  {
    var url := "/?a=1&a=2";
    IndexOfChar(url, '?');
    assert url[1] == '?' && '?' !in url[..1];
    assert url[2..] == "a=1&a=2";
    assert "a=1&a=2" == "a=1" + "&" + "a=2";
    PiecesCons("a=1", "&", "a=2");
    IndexOfChar("a=2", '&');
  }

  lemma RepeatedKeyPairs()
    ensures DecodePair("a=1") == Ok(("a", "1"))
    ensures DecodePair("a=2") == Ok(("a", "2"))
  {
    UrlDecodePlain("a");
    UrlDecodePlain("1");
    UrlDecodePlain("2");
    PlainPair("a", "1");
    PlainPair("a", "2");
    assert "a=1" == "a" + "=" + "1";
    assert "a=2" == "a" + "=" + "2";
  }

  /** A pair whose key and value decode to themselves. */
  lemma PlainPair(k: string, v: string)
    requires '=' !in k && UrlDecode(k) == Ok(k) && UrlDecode(v) == Ok(v)
    ensures DecodePair(k + "=" + v) == Ok((k, v))
  {
    SplitPairExample(k, v);
  }

  lemma SplitPairExample(k: string, v: string)
    requires '=' !in k
    ensures SplitAtFirst(k + "=" + v, '=') == (k, v)
  {
    var p := k + "=" + v;
    assert p[|k|] == '=';
    var r := SplitAtFirst(p, '=');
    IndexOfChar(p, '=');
    assert p[..|k|] == k;
  }

  /** `/path` and `/path?` give the empty map. */
  lemma NoQueryExample()
    ensures Query("/path") == Ok(map[]) && Query("/path?") == Ok(map[])
  {
    assert '?' !in "/path" by {
      assert forall i :: 0 <= i < |"/path"| ==> "/path"[i] != '?';
    }
    assert "/path?"[..5] == "/path";
    assert QueryString("/path?").None?;
  }
}
