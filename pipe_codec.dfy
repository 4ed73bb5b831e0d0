/**
 * The "secure pipe" transport codec of api.py: identifier translation,
 * the pure meaning of the deep translation pass, the request encoder and
 * the response decoder. gzip and the JSON text format are library code
 * outside this model; they enter as function parameters, and the round
 * trips that need them state the library's law for the one argument used.
 */
module PipeCodec {
  import opened Wrappers
  import Utf8
  import Base64Url
  import opened Json

  /** Base64url then UTF-8, after restoring padding; None where Python raises. */
  function DecodeText(s: string): (r: Option<string>)
    ensures !Base64Url.IsAscii(s) ==> r == None
  {
    var p := Base64Url.Pad(s);
    assert !Base64Url.IsAscii(s) ==> !Base64Url.IsAscii(p) by {
      if !Base64Url.IsAscii(s) {
        var i :| 0 <= i < |s| && s[i] as int >= 128;
        assert p[i] == s[i];
      }
    }
    match Base64Url.Decode(p)
    case None => None
    case Some(b) => Utf8.Decode(b)
  }

  /**
   * `_translate_id`: the decoded text when decoding succeeds and the text
   * holds a ':', otherwise the argument itself; never an error.
   */
  function TranslateId(s: string): (r: string)
    ensures r == s || (':' in r && DecodeText(s) == Some(r))
    ensures DecodeText(s).Some? && ':' in DecodeText(s).value ==> r == DecodeText(s).value
  {
    match DecodeText(s)
    case Some(t) => if ':' in t then t else s
    case None => s
  }

  /** `base64.urlsafe_b64encode(t.encode()).decode().rstrip('=')`. */
  function EncodeText(t: string): (r: string)
    ensures forall i :: 0 <= i < |r| ==> Base64Url.InAlphabet(r[i])
    ensures r == [] || r[|r| - 1] != '='
    ensures Base64Url.Decode(Base64Url.Pad(r)) == Some(Utf8.Encode(t))
  {
    var b := Utf8.Encode(t);
    Base64Url.StripEncode(b);
    Base64Url.PadThenDecode(b);
    Base64Url.StripPadding(Base64Url.Encode(b))
  }

  /** The decoding `TranslateId` attempts inverts `EncodeText`. */
  lemma {:induction false} DecodeTextEncodeText(t: string)
    ensures DecodeText(EncodeText(t)) == Some(t)
  {
    Utf8.DecodeEncode(t);
  }

  /**
   * An identifier encoded the way the sources route encodes it comes back
   * unchanged through `TranslateId` when it holds a ':', and is passed
   * through still encoded when it does not.
   */
  lemma {:induction false} TranslateIdOfEncoded(t: string)
    ensures ':' in t ==> TranslateId(EncodeText(t)) == t
    ensures ':' !in t ==> TranslateId(EncodeText(t)) == EncodeText(t)
  {
    DecodeTextEncodeText(t);
  }

  /** The empty text encodes to the empty string. */
  lemma {:induction false} EncodeTextEmpty()
    ensures EncodeText([]) == []
  {
    assert Utf8.Encode([]) == [];
    assert Base64Url.Encode([]) == [];
  }

  /** Encoding lengthens every non-empty text. */
  lemma {:induction false} EncodeTextLengthens(t: string)
    requires t != []
    ensures |EncodeText(t)| > |t|
  {
    var b := Utf8.Encode(t);
    Base64Url.StripEncode(b);
    Base64Url.BodyLength(b);
  }

  /** A string with a character outside ASCII is never translated. */
  lemma {:induction false} TranslateIdKeepsNonAscii(s: string)
    requires !Base64Url.IsAscii(s)
    ensures TranslateId(s) == s
  {
  }

  /**
   * A run of data characters one more than a multiple of four cannot be
   * base64, so it is passed through.
   */
  lemma {:induction false} TranslateIdKeepsDanglingCharacter(s: string)
    requires Base64Url.AllData(s) && |s| % 4 == 1
    ensures TranslateId(s) == s
  {
    Base64Url.PadDecodesAsMinimalPadding(s);
  }

  /**
   * Translation is a heuristic: a plain identifier holding ':' is rewritten
   * when what is left after the decoder skips the ':' happens to be the
   * encoding of text with a ':'. "Oj:E6" reads as "OjE6", the encoding of
   * ":1:".
   */
  lemma {:induction false} PlainIdentifierCanBeRewritten()
    ensures TranslateId("Oj:E6") == ":1:"
  {
    assert Base64Url.Decode(Base64Url.Pad("Oj:E6")) == Some([58, 49, 58]) by {
      PaddedExampleDecodes();
    }
    assert Utf8.Decode([58, 49, 58]) == Some(":1:") by {
      assert Utf8.Encode(":1:") == [58, 49, 58];
      Utf8.DecodeEncode(":1:");
    }
    assert ':' in ":1:";
  }

  /** The decoder skips the ':' of "Oj:E6===" and stops at the first '='. */
  lemma {:induction false} PaddedExampleDecodes()
    ensures Base64Url.Decode(Base64Url.Pad("Oj:E6")) == Some([58, 49, 58])
  {
    var s := "Oj:E6===";
    assert Base64Url.Pad("Oj:E6") == s by {
      assert Base64Url.Equals(3) == "===";
    }
    assert Base64Url.IsAscii(s);
    ExampleScan(s);
  }

  /** The scan of "Oj:E6===", one character at a time. */
  lemma {:induction false} ExampleScan(s: string)
    requires |s| == 8 && s[0] == 'O' && s[1] == 'j' && s[2] == ':' && s[3] == 'E' && s[4] == '6'
    requires s[5] == '=' && s[6] == '=' && s[7] == '='
    ensures Base64Url.Scan(s, Base64Url.Start) == Some([58, 49, 58])
  {
    var st0 := Base64Url.Start;
    var st1 := Base64Url.Feed(st0, 14);
    var st2 := Base64Url.Feed(st1, 35);
    var st3 := Base64Url.Feed(st2, 4);
    var st4 := Base64Url.Feed(st3, 58);
    assert st4.quad == 0 && st4.out == [58, 49, 58];
    assert Base64Url.SextetOf('O') == Some(14);
    Base64Url.ScanData(s, st0, 14);
    assert s[1..][0] == 'j' && Base64Url.SextetOf('j') == Some(35);
    Base64Url.ScanData(s[1..], st1, 35);
    assert s[1..][1..] == s[2..] && s[2..][0] == ':' && Base64Url.SextetOf(':') == None;
    Base64Url.ScanSkip(s[2..], st2);
    assert s[2..][1..] == s[3..] && s[3..][0] == 'E' && Base64Url.SextetOf('E') == Some(4);
    Base64Url.ScanData(s[3..], st2, 4);
    assert s[3..][1..] == s[4..] && s[4..][0] == '6' && Base64Url.SextetOf('6') == Some(58);
    Base64Url.ScanData(s[4..], st3, 58);
    assert s[4..][1..] == s[5..];
    assert s[5..] == Base64Url.Equals(3) by {
      assert Base64Url.Equals(3) == "===";
    }
    Base64Url.ScanEquals(3, st4);
  }

  /**
   * What `Translate` does to the value stored under `key` in an object: a
   * string under "id" goes through `TranslateId`, anything else is walked.
   */
  function TranslateEntry(key: string, val: Value): Value
    decreases val, 1
  {
    if key == "id" && val.Str? then Str(TranslateId(val.s)) else Translate(val)
  }

  /**
   * The value `_deep_translate` leaves behind: it descends into every
   * object and array and rewrites each string stored under the key "id".
   */
  function Translate(v: Value): (r: Value)
    ensures v.Arr? <==> r.Arr?
    ensures v.Arr? ==> |r.items| == |v.items|
    ensures v.Obj? <==> r.Obj?
    ensures v.Obj? ==> |r.fields| == |v.fields| && forall i :: 0 <= i < |v.fields| ==> r.fields[i].key == v.fields[i].key
    ensures !v.Arr? && !v.Obj? ==> r == v
    decreases v, 0
  {
    match v
    case Arr(items) => Arr(seq(|items|, i requires 0 <= i < |items| => Translate(items[i])))
    case Obj(fields) =>
      Obj(seq(|fields|, i requires 0 <= i < |fields| => Field(fields[i].key, TranslateEntry(fields[i].key, fields[i].val))))
    case _ => v
  }

  /**
   * What translation does to one identifier string: `t` is `s` or a
   * decoding of `s` holding a ':', and it is that decoding whenever the
   * decoding succeeds and holds a ':'.
   */
  predicate IdRewrite(s: string, t: string) {
    && (t == s || (':' in t && DecodeText(s) == Some(t)))
    && (DecodeText(s).Some? && ':' in DecodeText(s).value ==> t == DecodeText(s).value)
  }

  /**
   * `b` is `a` with at most its "id" strings rewritten: the same shape,
   * the same keys in the same order, the same array lengths, the same
   * scalars, and each "id" string replaced as `IdRewrite` demands.
   */
  predicate OnlyIdsRewritten(a: Value, b: Value)
    decreases a, 0
  {
    match a
    case Arr(xs) =>
      b.Arr? && |b.items| == |xs| && forall i :: 0 <= i < |xs| ==> OnlyIdsRewritten(xs[i], b.items[i])
    case Obj(fs) =>
      b.Obj? && |b.fields| == |fs|
      && forall i :: 0 <= i < |fs| ==> b.fields[i].key == fs[i].key && EntryRewritten(fs[i].key, fs[i].val, b.fields[i].val)
    case _ => b == a
  }

  predicate EntryRewritten(key: string, x: Value, y: Value)
    decreases x, 1
  {
    if key == "id" && x.Str? then y.Str? && IdRewrite(x.s, y.s) else OnlyIdsRewritten(x, y)
  }

  lemma {:induction false} TranslateOnlyRewritesIds(v: Value)
    ensures OnlyIdsRewritten(v, Translate(v))
    decreases v
  {
    match v
    case Arr(items) =>
      forall i | 0 <= i < |items| ensures OnlyIdsRewritten(items[i], Translate(v).items[i]) {
        TranslateOnlyRewritesIds(items[i]);
      }
    case Obj(fields) =>
      forall i | 0 <= i < |fields|
        ensures EntryRewritten(fields[i].key, fields[i].val, Translate(v).fields[i].val)
      {
        var f := fields[i];
        if !(f.key == "id" && f.val.Str?) {
          TranslateOnlyRewritesIds(f.val);
        }
      }
    case _ =>
  }

  /** `IdRewrite` admits exactly one rewrite: the one `TranslateId` makes. */
  lemma {:induction false} IdRewriteIsTranslateId(s: string, t: string)
    ensures IdRewrite(s, t) <==> t == TranslateId(s)
  {
  }

  /**
   * The walk's frame determines its result: a value related to `a` by
   * `OnlyIdsRewritten` is `Translate(a)` and nothing else.
   */
  lemma {:induction false} OnlyIdsRewrittenIsTranslate(a: Value, b: Value)
    ensures OnlyIdsRewritten(a, b) <==> b == Translate(a)
    decreases a
  {
    TranslateOnlyRewritesIds(a);
    if OnlyIdsRewritten(a, b) {
      match a
      case Arr(xs) =>
        forall i | 0 <= i < |xs| ensures b.items[i] == Translate(a).items[i] {
          OnlyIdsRewrittenIsTranslate(xs[i], b.items[i]);
        }
        assert b.items == Translate(a).items;
      case Obj(fs) =>
        forall i | 0 <= i < |fs| ensures b.fields[i] == Translate(a).fields[i] {
          var f, g := fs[i], b.fields[i];
          assert g.key == f.key && EntryRewritten(f.key, f.val, g.val);
          if f.key == "id" && f.val.Str? {
            assert g.val.Str? && IdRewrite(f.val.s, g.val.s);
            IdRewriteIsTranslateId(f.val.s, g.val.s);
            assert g.val == TranslateEntry(f.key, f.val);
          } else {
            OnlyIdsRewrittenIsTranslate(f.val, g.val);
            assert g.val == TranslateEntry(f.key, f.val);
          }
        }
        assert b.fields == Translate(a).fields;
      case _ =>
    }
  }

  /** No string is stored under "id" anywhere in `v`. */
  predicate NoIdStrings(v: Value)
    decreases v
  {
    match v
    case Arr(xs) => forall i :: 0 <= i < |xs| ==> NoIdStrings(xs[i])
    case Obj(fs) => forall i :: 0 <= i < |fs| ==> !(fs[i].key == "id" && fs[i].val.Str?) && NoIdStrings(fs[i].val)
    case _ => true
  }

  /** A value with no "id" string anywhere comes out of the walk identical. */
  lemma {:induction false} TranslateWithoutIds(v: Value)
    requires NoIdStrings(v)
    ensures Translate(v) == v
    decreases v
  {
    match v
    case Arr(items) =>
      forall i | 0 <= i < |items| ensures Translate(items[i]) == items[i] {
        TranslateWithoutIds(items[i]);
      }
      assert Translate(v).items == items;
    case Obj(fields) =>
      forall i | 0 <= i < |fields| ensures Translate(v).fields[i] == fields[i] {
        TranslateWithoutIds(fields[i].val);
      }
      assert Translate(v).fields == fields;
    case _ =>
  }

  /**
   * `_encode_pipe_request`: the JSON text of the request, UTF-8 encoded,
   * as unpadded base64url. `dumps` stands for `json.dumps`.
   */
  function EncodePipeRequest(dumps: Value -> string, payload: Value): (r: string)
    ensures forall i :: 0 <= i < |r| ==> Base64Url.InAlphabet(r[i])
    ensures r == [] || r[|r| - 1] != '='
    ensures Base64Url.Decode(Base64Url.Pad(r)) == Some(Utf8.Encode(dumps(payload)))
  {
    EncodeText(dumps(payload))
  }

  /**
   * The pipe endpoint, padding, decoding and parsing the envelope, reads
   * back the request, given that `loads` parses what `dumps` wrote.
   */
  lemma {:induction false} EncodePipeRequestRoundTrip(dumps: Value -> string, loads: string -> Option<Value>, payload: Value)
    requires loads(dumps(payload)) == Some(payload)
    ensures DecodeText(EncodePipeRequest(dumps, payload)) == Some(dumps(payload))
    ensures loads(DecodeText(EncodePipeRequest(dumps, payload)).value) == Some(payload)
  {
    DecodeTextEncodeText(dumps(payload));
  }

  /** The one error `_decode_pipe_response` raises, whatever step failed. */
  datatype PipeError = ValueError(message: string)

  const DecodeFailure := ValueError("Failed to decode pipe response")

  /**
   * `_decode_pipe_response`: restore padding, base64url-decode, gunzip,
   * UTF-8-decode and parse. `gunzip` stands for `gzip.decompress` and
   * `loads` for `json.loads`; each is None where the library raises.
   */
  function DecodePipeResponse(gunzip: Bytes -> Option<Bytes>, loads: string -> Option<Value>, blob: string)
    : (r: Result<Value, PipeError>)
    ensures r.Failure? ==> r.error == DecodeFailure
    ensures Base64Url.Decode(Base64Url.Pad(blob)).None? ==> r.Failure?
    ensures r.Success? <==>
      var compressed := Base64Url.Decode(Base64Url.Pad(blob));
      && compressed.Some?
      && gunzip(compressed.value).Some?
      && Utf8.Decode(gunzip(compressed.value).value).Some?
      && loads(Utf8.Decode(gunzip(compressed.value).value).value).Some?
    ensures r.Success? ==>
      Some(r.value) == loads(Utf8.Decode(gunzip(Base64Url.Decode(Base64Url.Pad(blob)).value).value).value)
  {
    match Base64Url.Decode(Base64Url.Pad(blob))
    case None => Failure(DecodeFailure)
    case Some(compressed) =>
      match gunzip(compressed)
      case None => Failure(DecodeFailure)
      case Some(raw) =>
        match Utf8.Decode(raw)
        case None => Failure(DecodeFailure)
        case Some(text) =>
          match loads(text)
          case None => Failure(DecodeFailure)
          case Some(v) => Success(v)
  }

  /**
   * A response built as the upstream builds it (JSON text, UTF-8, gzip,
   * base64url, padded or not) decodes to the value it was built from,
   * given that gzip and JSON round-trip on it.
   */
  lemma {:induction false} DecodePipeResponseRoundTrip(
    gzip: Bytes -> Bytes, gunzip: Bytes -> Option<Bytes>,
    dumps: Value -> string, loads: string -> Option<Value>, v: Value)
    requires gunzip(gzip(Utf8.Encode(dumps(v)))) == Some(Utf8.Encode(dumps(v)))
    requires loads(dumps(v)) == Some(v)
    ensures DecodePipeResponse(gunzip, loads, Base64Url.Encode(gzip(Utf8.Encode(dumps(v))))) == Success(v)
    ensures DecodePipeResponse(gunzip, loads, Base64Url.StripPadding(Base64Url.Encode(gzip(Utf8.Encode(dumps(v)))))) == Success(v)
  {
    Base64Url.PadThenDecode(gzip(Utf8.Encode(dumps(v))));
    Utf8.DecodeEncode(dumps(v));
  }
}
