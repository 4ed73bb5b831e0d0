# Secure-pipe codec of the anime streaming API

This project models the "secure pipe" transport codec of `api.py`. That is the
part of the API that talks to the upstream episode service through one endpoint,
`?e=<envelope>`.

- **Outbound.** A route builds a request intent: a JSON object with `path`,
  `method`, `query`, `body` and `version` 0.1.0. It serialises the intent to
  JSON text and encodes that text as UTF-8, then as base64url (section 5 of
  RFC 4648) with the trailing `=` stripped.
- **Inbound.** The response text has its padding restored. It is then
  base64url-decoded, gunzipped, UTF-8-decoded and parsed as JSON. Any failure
  along the way becomes the single error `ValueError("Failed to decode pipe response")`.
- **Identifier translation.** The episodes route walks the decoded payload in
  place. Every string stored under the dict key `"id"` is replaced by its
  base64url/UTF-8 decoding, but only when that decoding succeeds and contains
  a `':'`. Otherwise the string is left as it was.
- **Sources route.** This route does the inverse: it encodes a plain episode id
  as unpadded base64url before sending it.

The modules follow that structure:

| module | file | what it holds |
|---|---|---|
| `Wrappers` | `wrappers.dfy` | `Option`, `Result`, bytes |
| `Utf8` | `utf8.dfy` | `str.encode()` and strict `bytes.decode()` (RFC 3629) |
| `Base64Url` | `base64url.dfy` | `urlsafe_b64encode`; `urlsafe_b64decode` as CPython's lenient decoder runs it; `rstrip('=')`; the padding expression |
| `Json` | `json.dfy` | JSON values, with objects as ordered key/value pairs |
| `PipeCodec` | `pipe_codec.dfy` | `_translate_id`; the pure meaning of `_deep_translate`; `_encode_pipe_request`; `_decode_pipe_response` |
| `DeepTranslate` | `deep_translate.dfy` | `_deep_translate` as the source runs it, in place, on a heap of dict and list objects |
| `PipeRoutes` | `pipe_routes.dfy` | the intents of `get_episodes` and `get_sources`; what `get_episodes` returns |

How the code is modelled:

- **Base64url decoding** is concrete, not an abstract function. It follows the
  non-strict loop of CPython's `binascii.a2b_base64`:
  - characters outside the alphabet are skipped;
  - `'+'` and `'/'` are read like `'-'` and `'_'`;
  - a `'='` is ignored at the first or second position of a quad;
  - decoding stops at the first complete padding;
  - decoding fails on a dangling character or on missing padding;
  - a `str` holding a non-ASCII character is refused.

  The codec depends on this leniency, so the model states it rather than
  assuming it.
- **UTF-8** is concrete in both directions.
- **gzip, `json.dumps` and `json.loads`** are function parameters. The
  round-trip lemmas take the library's law as a precondition, stated for the
  one argument they use.
- **`_deep_translate`** is a method on `DeepTranslate.Container` objects. It
  mutates the `vals` of a dict in place, exactly as the source's
  `obj[key] = _translate_id(value)` does. It is proved to leave behind
  `PipeCodec.Translate` of the value it started from. The properties of the
  walk are proved about `PipeCodec.Translate`.

Three facts the proofs bring out:

- **Padding.** The padding expression at `api.py:127` and `api.py:152` is
  `'=' * (4 - len % 4)`. It always appends between one and four `'='`, so a
  string whose length is already a multiple of four gets four redundant ones.
  The minimal padding is `(4 - len % 4) % 4`, which equals `(-len) % 4`. The
  model follows the code.
  `Base64Url.PadDecodesAsMinimalPadding` proves that, under CPython's decoder,
  the extra `'='` decode exactly like the minimal padding for every string of
  data characters. The over-padding is therefore harmless there.
- **Translation is a heuristic.** A plain identifier holding a `':'` can be
  rewritten: the decoder skips the `':'` of `"Oj:E6"` and reads `"OjE6"`,
  which decodes to `":1:"` (`PipeCodec.PlainIdentifierCanBeRewritten`).
- **An id without `':'` does not survive the trip.** When the pipe sends the
  encoding of such an id, the episodes route passes it through still encoded.
  The sources route then encodes it a second time, so the pipe gets back its
  own id only when the id held a `':'` (`PipeRoutes.EpisodeIdReachesSources`).

## Model

| member | source | states |
|---|---|---|
| `Base64Url.Pad` | api.py:127 | Restoring padding appends between one and four `'='` and keeps the string as a prefix. The result's length is a multiple of four. A string whose length is already a multiple of four gets exactly four. |
| `Base64Url.PadDecodesAsMinimalPadding` | api.py:152-153 | For a string of data characters, decoding after the code's padding gives the same result as decoding after the minimal padding `(4 - len % 4) % 4`. That decoding fails exactly when the length is one more than a multiple of four. |
| `Base64Url.PadThenDecode` | api.py:152-153 | Padding then decoding recovers the original bytes, both from a padded encoding and from one whose `'='` were stripped. |
| `Base64Url.DecodeEncode` | api.py:161 | `urlsafe_b64decode` inverts `urlsafe_b64encode` on every byte string. |
| `Base64Url.Encode` | api.py:161 | The encoding's length is a multiple of four. |
| `Base64Url.BodyLength` | api.py:161 | The encoding has four data characters per three bytes, plus two for a trailing single byte or three for a trailing pair. |
| `Base64Url.StripPadding` | api.py:161 | `rstrip('=')` returns a prefix of its argument that does not end in `'='`, and removes nothing but `'='`. |
| `Base64Url.StripEncode` | api.py:161 | Stripping the `'='` from an encoding leaves exactly its data characters. |
| `Base64Url.ScanEquals` | api.py:153 | What a run of `'='` does to the decoder at each position of a quad. After two or three data characters of a quad it completes the output once it fills the quad, and decoding fails when it is too short. Before the second data character of a quad it is ignored. |
| `Base64Url.Decode` | api.py:153 | Decoding a string holding a non-ASCII character fails. |
| `Base64Url.SextetOf` | api.py:153 | The decoder reads a value for exactly the base64url alphabet plus `'+'` and `'/'`. It skips every other character except `'='`, which `Base64Url.ScanEquals` describes. |
| `Base64Url.PaddingArith` | api.py:161 | The number of `'='` the encoder writes completes the data characters to a multiple of four, and is the least number that does. |
| `Utf8.Encode` | api.py:314 | `str.encode()` is empty exactly for the empty string, and gives at least one byte per character. |
| `Utf8.Decode` | api.py:154 | Strict `.decode('utf-8')`: whatever it accepts re-encodes to exactly the bytes it read, so it accepts only what `str.encode()` produces. |
| `Utf8.DecodeEncode` | api.py:127 | Strict UTF-8 decoding of what `str.encode()` produced gives the string back. |
| `PipeCodec.DecodeText` | api.py:127 | The decoding `_translate_id` attempts fails for a string holding a non-ASCII character. |
| `PipeCodec.TranslateId` | api.py:124-132 | The result is either the argument itself, or a decoding of it that holds a `':'`. Whenever the decoding succeeds and holds a `':'`, the result is that decoding. The function never fails. |
| `PipeCodec.EncodeText` | api.py:314 | The encoded id uses only the base64url alphabet and never ends with `'='`. Re-padding and decoding it gives the UTF-8 bytes of the plain id. |
| `PipeCodec.DecodeTextEncodeText` | api.py:127 | The decoding in `_translate_id` inverts the encoding of the sources route. |
| `PipeCodec.TranslateIdOfEncoded` | api.py:127-129 | `_translate_id` of an encoded id gives back the plain id when that id holds a `':'`, and returns the encoded string unchanged otherwise. |
| `PipeCodec.EncodeTextEmpty` | api.py:314 | The empty id encodes to the empty string. |
| `PipeCodec.EncodeTextLengthens` | api.py:314 | Encoding makes every non-empty id strictly longer. |
| `PipeCodec.TranslateIdKeepsNonAscii` | api.py:131-132 | A string holding a non-ASCII character is returned unchanged, because the decoder raises and the error is caught. |
| `PipeCodec.TranslateIdKeepsDanglingCharacter` | api.py:127-132 | A run of data characters whose length is one more than a multiple of four cannot be decoded, so it is returned unchanged. |
| `PipeCodec.PlainIdentifierCanBeRewritten` | api.py:127-129 | The plain identifier `"Oj:E6"` is rewritten to `":1:"`. |
| `PipeCodec.PaddedExampleDecodes` | api.py:127 | `"Oj:E6"`, padded, decodes to the bytes of `":1:"`, because the `':'` is skipped. |
| `PipeCodec.Translate` | api.py:135-146 | The value `_deep_translate` leaves behind. A list stays a list of the same length. A dict stays a dict with the same keys in the same order. Any other value is unchanged. |
| `PipeCodec.TranslateOnlyRewritesIds` | api.py:137-146 | The walk keeps the shape of the value: the same keys in the same order, the same list lengths and the same scalars. Each string under `"id"` becomes its decoding when that decoding succeeds and holds a `':'`, and stays as it was otherwise. |
| `PipeCodec.IdRewriteIsTranslateId` | api.py:139-140 | The rewrite allowed for one `"id"` string is exactly `_translate_id` of it. |
| `PipeCodec.OnlyIdsRewrittenIsTranslate` | api.py:137-146 | A value is related to `a` by that frame exactly when it is `Translate(a)`. The frame therefore determines the walk's result. |
| `PipeCodec.TranslateWithoutIds` | api.py:141-146 | A value with no string under an `"id"` key comes out of the walk identical. |
| `PipeCodec.EncodePipeRequest` | api.py:159-161 | The envelope uses only the base64url alphabet and never ends with `'='`. Re-padding and decoding it gives the UTF-8 bytes of the request's JSON text. |
| `PipeCodec.EncodePipeRequestRoundTrip` | api.py:161 | Given that `json.loads` reads back what `json.dumps` wrote, the pipe endpoint recovers the JSON text and the request from the envelope. |
| `PipeCodec.DecodePipeResponse` | api.py:149-156 | The result is a parsed value exactly when base64url decoding, gunzip, UTF-8 decoding and JSON parsing all succeed, and the value is what the parse returned. Every failure is the one `ValueError("Failed to decode pipe response")`. |
| `PipeCodec.DecodePipeResponseRoundTrip` | api.py:151-154 | A response built as JSON text, then UTF-8, gzip and base64url decodes to the value it was built from, whether or not its `'='` were stripped. This holds given that gzip and JSON round-trip on it. |
| `DeepTranslate.Walk` | api.py:135-146 | `_deep_translate(obj)` leaves a scalar alone and turns a dict or list into `Translate` of what it held. |
| `DeepTranslate.TranslateContainer` | api.py:137-146 | After the loop over a dict's items or a list's elements, the container and everything below it holds `Translate` of what it held before. The set of objects it reaches is unchanged. |
| `DeepTranslate.TranslateItem` | api.py:138-146 | One iteration: item `i` becomes its translation (its `"id"` rewrite, or its walked container). Every other item keeps its value. |
| `DeepTranslate.RewriteId` | api.py:139-140 | `obj[key] = _translate_id(value)` replaces only position `i` of the dict, with the translated id. |
| `DeepTranslate.WalkChild` | api.py:141-142 | Recursing into a nested dict or list translates that child and changes no other item of the parent. |
| `PipeRoutes.Intent` | api.py:289-295 | The envelope has exactly the keys `path`, `method`, `query`, `body`, `version`, in that order. `method` is `"GET"`, `body` is `None` and `version` is `"0.1.0"`. |
| `PipeRoutes.EpisodesIntent` | api.py:289-295 | The episodes intent has `path` `"episodes"` and `query` `{"anilistId": id}`. |
| `PipeRoutes.SourcesIntent` | api.py:314-326 | The sources intent has `path` `"sources"`, and its query holds exactly `episodeId`, `provider`, `category` and `anilistId`. `episodeId` is the unpadded base64url of the plain id; the other three are the route's arguments. |
| `PipeRoutes.SourcesQuery` | api.py:318-323 | Each of the four query parameters looks up its own value, and the keys come in the source's order. |
| `PipeRoutes.SourcesEpisodeIdDecodes` | api.py:314 | The pipe can decode the `episodeId` of a sources intent back to the plain id. |
| `PipeRoutes.EpisodeIdReachesSources` | api.py:314 | An id the pipe served as `EncodeText(t)` and sent back through the sources route reaches the pipe as `EncodeText(t)` again exactly when `t` holds a `':'` or is empty. |
| `PipeRoutes.EpisodesData` | api.py:301-303 | The episodes route fails exactly when the response decoder fails, with the decoder's one error. Otherwise it returns the decoded payload with every `"id"` string rewritten as `_translate_id` does and nothing else changed. By `PipeCodec.OnlyIdsRewrittenIsTranslate`, that payload is exactly `Translate` of the decoded one. |
| `PipeRoutes.EpisodesRouteDecodesNestedId` | api.py:301-303 | An episode list whose nested episode id is the encoding of a `':'`-holding id comes back with the plain id, and the episode number untouched. |
| `PipeRoutes.OnlyIdEntryIsRewritten` | api.py:139-140 | Under `"id"` the encoded string is rewritten. The same string under a sibling key is kept. |

## Left out

- HTTP (`httpx`), request headers, the pipe URL, status-code propagation and `HTTPException` are not modelled. They are network I/O and framework code.
- FastAPI routing, the query-parameter declarations and the HTML home page are not modelled.
- The AniList GraphQL routes (`search_anime`, `_fetch_collection`, `get_schedule`, `get_anime_info`) are not modelled. They are thin wrappers over a remote service.
- gzip (DEFLATE and the RFC 1952 framing) is a parameter of the model, not an implementation.
- `json.dumps` and `json.loads` (the JSON text format) are parameters of the model, not implementations.
- JSON objects are sequences of key/value pairs. An object with a repeated key stands for no Python dict: `json.loads` keeps one value per key, and such objects are not modelled. `Json.Get` returns the first occurrence only so that it is defined on every value.
- JSON numbers are integers. Floating-point numbers do not occur in the intents and are not modelled.
- PipeRoutes.EpisodesData: takes the response text after `res.text.strip()`; the stripping of whitespace is not modelled.
- PipeRoutes.EpisodesData: returns `PipeCodec.Translate` of the parsed value rather than running `DeepTranslate.Walk`. The heap objects that `json.loads` allocates are not modelled, and `DeepTranslate.Walk` is proved to produce exactly `Translate`.
- DeepTranslate.TranslateContainer: requires the containers to form a tree, as `json.loads` builds them. A dict or list reachable twice, or holding itself, is not covered.
- Python strings holding lone surrogates are not modelled: a Dafny `char` is a Unicode scalar value, so every modelled string can be UTF-8 encoded.
- The decoder's behaviour on `bytes` arguments and in strict mode (`validate=True`) is not modelled, because the code never uses them.
