/**
 * The two routes that talk to the pipe: the request intents they build,
 * what the episodes route does with the response, and what happens to an
 * episode identifier on its way from the episodes route back into the
 * sources route.
 */
module PipeRoutes {
  import opened Wrappers
  import opened Json
  import PipeCodec

  const Version: string := "0.1.0"

  /** The envelope of every pipe request: a GET of `path` with `query`, no body, protocol version 0.1.0. */
  predicate IsPipeIntent(v: Value, path: string, query: seq<Field>) {
    && v.Obj?
    && DistinctKeys(v.fields)
    && Keys(v.fields) == ["path", "method", "query", "body", "version"]
    && Get(v, "path") == Some(Str(path))
    && Get(v, "method") == Some(Str("GET"))
    && Get(v, "query") == Some(Obj(query))
    && Get(v, "body") == Some(Null)
    && Get(v, "version") == Some(Str(Version))
  }

  function Intent(path: string, query: seq<Field>): (r: Value)
    ensures IsPipeIntent(r, path, query)
  {
    var fields := [
      Field("path", Str(path)),
      Field("method", Str("GET")),
      Field("query", Obj(query)),
      Field("body", Null),
      Field("version", Str(Version))
    ];
    assert DistinctKeys(fields);
    assert Keys(fields) == ["path", "method", "query", "body", "version"] by {
      var ks := Keys(fields);
      assert ks[0] == "path" && ks[1] == "method" && ks[2] == "query" && ks[3] == "body" && ks[4] == "version";
    }
    GetAt(fields, 0);
    GetAt(fields, 1);
    GetAt(fields, 2);
    GetAt(fields, 3);
    GetAt(fields, 4);
    Obj(fields)
  }

  /** The payload `get_episodes` sends: the AniList id is the only query parameter. */
  function EpisodesIntent(anilistId: int): (r: Value)
    ensures IsPipeIntent(r, "episodes", [Field("anilistId", Num(anilistId))])
    ensures Get(Get(r, "query").value, "anilistId") == Some(Num(anilistId))
  {
    Intent("episodes", [Field("anilistId", Num(anilistId))])
  }

  /**
   * The payload `get_sources` sends. The episode id travels as unpadded
   * base64url of its UTF-8 bytes, which the pipe can decode back to the
   * plain id; the other parameters travel as given.
   */
  function SourcesIntent(episodeId: string, provider: string, anilistId: int, category: string := "sub"): (r: Value)
    ensures Get(r, "query").Some? && Get(r, "query").value.Obj?
    ensures
      var query := Get(r, "query").value;
      && IsPipeIntent(r, "sources", query.fields)
      && Keys(query.fields) == ["episodeId", "provider", "category", "anilistId"]
      && Get(query, "episodeId") == Some(Str(PipeCodec.EncodeText(episodeId)))
      && Get(query, "provider") == Some(Str(provider))
      && Get(query, "category") == Some(Str(category))
      && Get(query, "anilistId") == Some(Num(anilistId))
  {
    var query := SourcesQuery(PipeCodec.EncodeText(episodeId), provider, category, anilistId);
    Intent("sources", query)
  }

  /** The query of a sources intent, its episode id already encoded; each parameter looks up its own value. */
  function SourcesQuery(encodedId: string, provider: string, category: string, anilistId: int): (q: seq<Field>)
    ensures Keys(q) == ["episodeId", "provider", "category", "anilistId"]
    ensures Get(Obj(q), "episodeId") == Some(Str(encodedId))
    ensures Get(Obj(q), "provider") == Some(Str(provider))
    ensures Get(Obj(q), "category") == Some(Str(category))
    ensures Get(Obj(q), "anilistId") == Some(Num(anilistId))
  {
    var q := [
      Field("episodeId", Str(encodedId)),
      Field("provider", Str(provider)),
      Field("category", Str(category)),
      Field("anilistId", Num(anilistId))
    ];
    assert DistinctKeys(q);
    assert Keys(q) == ["episodeId", "provider", "category", "anilistId"] by {
      var ks := Keys(q);
      assert ks[0] == "episodeId" && ks[1] == "provider" && ks[2] == "category" && ks[3] == "anilistId";
    }
    GetAt(q, 0);
    GetAt(q, 1);
    GetAt(q, 2);
    GetAt(q, 3);
    q
  }

  /** The pipe can decode the episode id of a sources intent back to the plain id the route was given. */
  lemma {:induction false} SourcesEpisodeIdDecodes(episodeId: string, provider: string, anilistId: int, category: string)
    ensures
      var query := Get(SourcesIntent(episodeId, provider, anilistId, category), "query").value;
      PipeCodec.DecodeText(Get(query, "episodeId").value.s) == Some(episodeId)
  {
    PipeCodec.DecodeTextEncodeText(episodeId);
  }

  /**
   * An episode id the pipe sent as `EncodeText(t)` reaches the client
   * translated; when the client passes that back to the sources route, the
   * pipe receives its original id exactly when `t` holds a ':' (or is
   * empty). Otherwise the episodes route passed the id through still
   * encoded, and the sources route encodes it a second time.
   */
  lemma {:induction false} EpisodeIdReachesSources(t: string, provider: string, anilistId: int, category: string)
    ensures
      var served := PipeCodec.TranslateId(PipeCodec.EncodeText(t));
      var query := Get(SourcesIntent(served, provider, anilistId, category), "query").value;
      (Get(query, "episodeId") == Some(Str(PipeCodec.EncodeText(t))) <==> ':' in t || t == [])
  {
    var e := PipeCodec.EncodeText(t);
    var served := PipeCodec.TranslateId(e);
    if ':' in t {
      assert served == t by { PipeCodec.TranslateIdOfEncoded(t); }
    } else if t == [] {
      assert served == e by { PipeCodec.TranslateIdOfEncoded(t); }
      assert e == [] && PipeCodec.EncodeText(e) == [] by { PipeCodec.EncodeTextEmpty(); }
    } else {
      assert served == e by { PipeCodec.TranslateIdOfEncoded(t); }
      assert e != [] by { PipeCodec.EncodeTextLengthens(t); }
      assert PipeCodec.EncodeText(e) != e by { PipeCodec.EncodeTextLengthens(e); }
    }
  }

  /**
   * What `get_episodes` returns for the pipe's response text: the decoded
   * payload with its identifiers translated, or the decoder's one error.
   */
  function EpisodesData(gunzip: Bytes -> Option<Bytes>, loads: string -> Option<Value>, blob: string)
    : (r: Result<Value, PipeCodec.PipeError>)
    ensures r.Failure? <==> PipeCodec.DecodePipeResponse(gunzip, loads, blob).Failure?
    ensures r.Failure? ==> r.error == PipeCodec.DecodeFailure
    ensures r.Success? ==>
      PipeCodec.OnlyIdsRewritten(PipeCodec.DecodePipeResponse(gunzip, loads, blob).value, r.value)
  {
    match PipeCodec.DecodePipeResponse(gunzip, loads, blob)
    case Failure(e) => Failure(e)
    case Success(v) =>
      PipeCodec.TranslateOnlyRewritesIds(v);
      Success(PipeCodec.Translate(v))
  }

  /** The episode list shape the pipe answers with, holding one episode with identifier `id`. */
  function EpisodeList(id: string, number: int): Value {
    var episode := Obj([Field("id", Str(id)), Field("number", Num(number))]);
    var episodes := Obj([Field("sub", Arr([episode]))]);
    Obj([Field("providers", Obj([Field("kiwi", Obj([Field("episodes", episodes)]))]))])
  }

  /**
   * Given a response that decodes to an episode list whose nested episode
   * id is `EncodeText(t)` for a `t` holding a ':', the episodes route
   * returns the same list with the plain `t` in its place and the episode
   * number untouched.
   */
  lemma {:induction false} EpisodesRouteDecodesNestedId(
    gunzip: Bytes -> Option<Bytes>, loads: string -> Option<Value>, blob: string, t: string, number: int)
    requires ':' in t
    requires PipeCodec.DecodePipeResponse(gunzip, loads, blob) == Success(EpisodeList(PipeCodec.EncodeText(t), number))
    ensures EpisodesData(gunzip, loads, blob) == Success(EpisodeList(t, number))
  {
    PipeCodec.TranslateIdOfEncoded(t);
    TranslateEpisodeList(PipeCodec.EncodeText(t), number);
  }

  lemma {:induction false} TranslateEpisodeList(s: string, number: int)
    ensures PipeCodec.Translate(EpisodeList(s, number)) == EpisodeList(PipeCodec.TranslateId(s), number)
  {
    var episode := Obj([Field("id", Str(s)), Field("number", Num(number))]);
    var episode' := Obj([Field("id", Str(PipeCodec.TranslateId(s))), Field("number", Num(number))]);
    assert PipeCodec.Translate(episode) == episode' by {
      var w := PipeCodec.Translate(episode);
      assert PipeCodec.TranslateEntry("id", Str(s)) == Str(PipeCodec.TranslateId(s));
      assert PipeCodec.TranslateEntry("number", Num(number)) == Num(number);
      assert |w.fields| == 2;
      assert w.fields[0] == episode'.fields[0] && w.fields[1] == episode'.fields[1];
    }
    assert PipeCodec.Translate(Arr([episode])) == Arr([episode']) by {
      assert PipeCodec.Translate(Arr([episode])).items[0] == episode';
    }
    var episodes := Obj([Field("sub", Arr([episode]))]);
    TranslateSingleField("sub", Arr([episode]));
    TranslateSingleField("episodes", episodes);
    TranslateSingleField("kiwi", Obj([Field("episodes", episodes)]));
    TranslateSingleField("providers", Obj([Field("kiwi", Obj([Field("episodes", episodes)]))]));
  }

  lemma {:induction false} TranslateSingleField(key: string, x: Value)
    requires key != "id"
    ensures PipeCodec.Translate(Obj([Field(key, x)])) == Obj([Field(key, PipeCodec.Translate(x))])
  {
    assert PipeCodec.Translate(Obj([Field(key, x)])).fields[0] == Field(key, PipeCodec.Translate(x));
  }

  /**
   * Only the "id" entry is rewritten: a sibling entry holding the very
   * same encoded string keeps it.
   */
  lemma {:induction false} OnlyIdEntryIsRewritten(t: string)
    requires ':' in t
    ensures
      var e := Str(PipeCodec.EncodeText(t));
      PipeCodec.Translate(Obj([Field("id", e), Field("title", e)])) == Obj([Field("id", Str(t)), Field("title", e)])
  {
    PipeCodec.TranslateIdOfEncoded(t);
    IdBesideTitle(PipeCodec.EncodeText(t));
  }

  lemma {:induction false} IdBesideTitle(s: string)
    ensures
      PipeCodec.Translate(Obj([Field("id", Str(s)), Field("title", Str(s))]))
      == Obj([Field("id", Str(PipeCodec.TranslateId(s))), Field("title", Str(s))])
  {
    var v := Obj([Field("id", Str(s)), Field("title", Str(s))]);
    var w := PipeCodec.Translate(v);
    assert PipeCodec.TranslateEntry("id", Str(s)) == Str(PipeCodec.TranslateId(s));
    assert PipeCodec.TranslateEntry("title", Str(s)) == Str(s);
    assert |w.fields| == 2;
    assert w.fields[0] == Field("id", Str(PipeCodec.TranslateId(s)));
    assert w.fields[1] == Field("title", Str(s));
    assert w.fields == [Field("id", Str(PipeCodec.TranslateId(s))), Field("title", Str(s))];
  }
}
