/**
 * Base64 with the URL- and filename-safe alphabet (section 5 of RFC 4648),
 * as Python's `base64.urlsafe_b64encode` writes it and as
 * `base64.urlsafe_b64decode` reads it. The decoder is the lenient
 * (non-strict) one of CPython's `binascii.a2b_base64`: it skips characters
 * outside the alphabet, ignores `=` that comes too early, stops at the first
 * complete padding and fails on a dangling data character or on missing
 * padding. The pipe codec relies on that leniency; it is stated here, not
 * assumed.
 */
module Base64Url {
  import opened Wrappers

  type Sextet = v: int | 0 <= v < 64

  /** Table 2 of RFC 4648, with '-' and '_' for 62 and 63. */
  function AlphabetChar(v: Sextet): (c: char)
    ensures InAlphabet(c)
  {
    if v < 26 then (65 + v) as char
    else if v < 52 then (97 + v - 26) as char
    else if v < 62 then (48 + v - 52) as char
    else if v == 62 then '-'
    else '_'
  }

  predicate InAlphabet(c: char) {
    'A' <= c <= 'Z' || 'a' <= c <= 'z' || '0' <= c <= '9' || c == '-' || c == '_'
  }

  /**
   * The value the decoder gives `c`. urlsafe_b64decode first maps '-' to
   * '+' and '_' to '/' and then uses the standard table, so '+' and '/' are
   * read as 62 and 63 as well. None for every character the decoder skips.
   */
  function SextetOf(c: char): (r: Option<Sextet>)
    ensures r.Some? <==> InAlphabet(c) || c == '+' || c == '/'
  {
    if 'A' <= c <= 'Z' then Some(c as int - 65)
    else if 'a' <= c <= 'z' then Some(c as int - 97 + 26)
    else if '0' <= c <= '9' then Some(c as int - 48 + 52)
    else if c == '-' || c == '+' then Some(62)
    else if c == '_' || c == '/' then Some(63)
    else None
  }

  lemma {:induction false} SextetOfAlphabetChar(v: Sextet)
    ensures SextetOf(AlphabetChar(v)) == Some(v)
  {
  }

  /** `n` padding characters. */
  function Equals(n: nat): (r: string)
    ensures |r| == n && forall i :: 0 <= i < n ==> r[i] == '='
  {
    if n == 0 then [] else Equals(n - 1) + ['=']
  }

  /** The sextets of three bytes `b0 b1 b2`, most significant bits first. */
  function Split0(b0: Byte): Sextet { b0 as int / 4 }
  function Split1(b0: Byte, b1: Byte): Sextet { b0 as int % 4 * 16 + b1 as int / 16 }
  function Split2(b1: Byte, b2: Byte): Sextet { b1 as int % 16 * 4 + b2 as int / 64 }
  function Split3(b2: Byte): Sextet { b2 as int % 64 }

  /** The four characters of one complete group of three bytes. */
  function Group(b0: Byte, b1: Byte, b2: Byte): (r: string)
  {
    [AlphabetChar(Split0(b0)), AlphabetChar(Split1(b0, b1)), AlphabetChar(Split2(b1, b2)), AlphabetChar(Split3(b2))]
  }

  /**
   * The data characters of the encoding of `b`: four per group of three
   * bytes, then two for a final single byte or three for a final pair (the
   * missing bits are zero).
   */
  function Body(b: Bytes): (r: string)
    ensures forall i :: 0 <= i < |r| ==> InAlphabet(r[i])
    decreases |b|
  {
    if |b| == 0 then []
    else if |b| == 1 then [AlphabetChar(Split0(b[0])), AlphabetChar(Split1(b[0], 0))]
    else if |b| == 2 then [AlphabetChar(Split0(b[0])), AlphabetChar(Split1(b[0], b[1])), AlphabetChar(Split2(b[1], 0))]
    else Group(b[0], b[1], b[2]) + Body(b[3..])
  }

  /** Every full group of three bytes takes four characters, and a tail of one or two bytes one more than its length. */
  lemma {:induction false} BodyLength(b: Bytes)
    ensures |Body(b)| == 4 * (|b| / 3) + (if |b| % 3 == 0 then 0 else |b| % 3 + 1)
    ensures |Body(b)| % 4 == (if |b| % 3 == 0 then 0 else |b| % 3 + 1)
  {
    BodyCount(b);
    ModFour(|b| / 3, if |b| % 3 == 0 then 0 else |b| % 3 + 1);
  }

  lemma {:induction false} ModFour(q: nat, e: nat)
    requires e < 4
    ensures (4 * q + e) % 4 == e
  {
  }

  lemma {:induction false} BodyCount(b: Bytes)
    ensures |Body(b)| == 4 * (|b| / 3) + (if |b| % 3 == 0 then 0 else |b| % 3 + 1)
    decreases |b|
  {
    if |b| >= 3 {
      var n := |b|;
      assert Body(b) == Group(b[0], b[1], b[2]) + Body(b[3..]);
      BodyCount(b[3..]);
      assert (n - 3) / 3 == n / 3 - 1 && (n - 3) % 3 == n % 3;
    }
  }

  /** `urlsafe_b64encode(b)`: the data characters padded with '=' to a multiple of four. */
  function Encode(b: Bytes): (r: string)
    ensures |r| % 4 == 0
  {
    BodyLength(b);
    PaddingArith(|b|, |Body(b)|);
    Body(b) + Equals((3 - |b| % 3) % 3)
  }

  /** The '=' count of an encoding completes its data characters to a multiple of four, and is the least that does. */
  lemma {:induction false} PaddingArith(n: nat, len: nat)
    requires len == 4 * (n / 3) + (if n % 3 == 0 then 0 else n % 3 + 1)
    ensures (len + (3 - n % 3) % 3) % 4 == 0
    ensures (3 - n % 3) % 3 == (4 - len % 4) % 4
  {
    var q, m := n / 3, n % 3;
    if m == 0 {
      ModFour(q, 0);
    } else {
      ModFour(q, m + 1);
      ModFour(q + 1, 0);
      assert len + (3 - m) % 3 == 4 * (q + 1);
    }
  }

  /** Restoring padding never adds fewer '=' than the minimal padding. */
  lemma {:induction false} PadCoversMinimal(len: nat)
    ensures 4 - len % 4 >= (4 - len % 4) % 4
  {
  }

  /** `s.rstrip('=')`. */
  function StripPadding(s: string): (r: string)
    ensures |r| <= |s| && r == s[..|r|]
    ensures r == [] || r[|r| - 1] != '='
    ensures forall i :: |r| <= i < |s| ==> s[i] == '='
  {
    if s != [] && s[|s| - 1] == '=' then StripPadding(s[..|s| - 1]) else s
  }

  /** The padding the pipe codec restores: `s + '=' * (4 - len(s) % 4)` (never zero characters). */
  function Pad(s: string): (r: string)
    ensures |r| % 4 == 0
    ensures |s| < |r| <= |s| + 4
    ensures r[..|s|] == s && forall i :: |s| <= i < |r| ==> r[i] == '='
    ensures |s| % 4 == 0 ==> |r| == |s| + 4
  {
    s + Equals(4 - |s| % 4)
  }

  predicate IsAscii(s: string) {
    forall i :: 0 <= i < |s| ==> s[i] as int < 128
  }

  /**
   * The decoder's state between characters: the position in the current
   * group of four, the bits left over from the last character, the '='
   * seen since the last data character, and the bytes produced so far.
   */
  datatype Scanner = Scanner(quad: nat, left: int, pads: nat, out: Bytes)

  /** The leftover bits fit where the next output byte expects them. */
  predicate ScannerOk(st: Scanner) {
    && st.quad < 4
    && 0 <= st.left < 64
    && (st.quad == 2 ==> st.left < 16)
    && (st.quad == 3 ==> st.left < 4)
  }

  /**
   * One data character: the `switch (quad_pos)` of a2b_base64. Each output
   * byte is `(leftchar << k) | (this_ch >> (6 - k))`; the two parts occupy
   * disjoint bits, so the `|` is a sum.
   */
  function Feed(st: Scanner, v: Sextet): (r: Scanner)
    requires ScannerOk(st)
    ensures ScannerOk(r) && r.quad == (st.quad + 1) % 4 && r.pads == 0
    ensures |r.out| == |st.out| + (if st.quad == 0 then 0 else 1) && r.out[..|st.out|] == st.out
  {
    if st.quad == 0 then Scanner(1, v, 0, st.out)
    else if st.quad == 1 then Scanner(2, v % 16, 0, st.out + [st.left * 4 + v / 16])
    else if st.quad == 2 then Scanner(3, v % 4, 0, st.out + [st.left * 16 + v / 4])
    else Scanner(0, 0, 0, st.out + [st.left * 64 + v])
  }

  /** The main loop of a2b_base64 in non-strict mode, from state `st` over `s`. */
  function Scan(s: string, st: Scanner): (r: Option<Bytes>)
    requires ScannerOk(st)
    decreases |s|
  {
    if s == [] then
      if st.quad == 0 then Some(st.out) else None
    else if s[0] == '=' then
      if st.quad >= 2 && st.quad + st.pads + 1 >= 4 then Some(st.out)
      else if st.quad >= 2 then Scan(s[1..], st.(pads := st.pads + 1))
      else Scan(s[1..], st)
    else
      match SextetOf(s[0])
      case None => Scan(s[1..], st)
      case Some(v) => Scan(s[1..], Feed(st, v))
  }

  const Start := Scanner(0, 0, 0, [])

  /** `urlsafe_b64decode(s)` for a `str`: a non-ASCII string is refused before decoding. */
  function Decode(s: string): (r: Option<Bytes>)
    ensures !IsAscii(s) ==> r == None
  {
    if IsAscii(s) then Scan(s, Start) else None
  }

  predicate AllData(s: string) {
    forall i :: 0 <= i < |s| ==> SextetOf(s[i]).Some?
  }

  /** The state after a run of data characters. */
  function Consume(s: string, st: Scanner): (r: Scanner)
    requires AllData(s) && ScannerOk(st)
    ensures ScannerOk(r) && r.quad == (st.quad + |s|) % 4
    ensures r.pads == if s == [] then st.pads else 0
    decreases |s|
  {
    if s == [] then st else Consume(s[1..], Feed(st, SextetOf(s[0]).value))
  }

  lemma {:induction false} ScanConsume(s: string, tail: string, st: Scanner)
    requires AllData(s) && ScannerOk(st)
    ensures Scan(s + tail, st) == Scan(tail, Consume(s, st))
    decreases |s|
  {
    if s == [] {
      assert s + tail == tail;
    } else {
      var v := SextetOf(s[0]).value;
      assert (s + tail)[0] == s[0] != '=';
      assert (s + tail)[1..] == s[1..] + tail;
      assert Scan(s + tail, st) == Scan(s[1..] + tail, Feed(st, v));
      ScanConsume(s[1..], tail, Feed(st, v));
    }
  }

  lemma {:induction false} ConsumeAppend(s: string, t: string, st: Scanner)
    requires AllData(s) && AllData(t) && ScannerOk(st)
    ensures AllData(s + t) && Consume(s + t, st) == Consume(t, Consume(s, st))
    decreases |s|
  {
    assert AllData(s + t) by {
      forall i | 0 <= i < |s + t| ensures SextetOf((s + t)[i]).Some? {
        if i < |s| { assert (s + t)[i] == s[i]; } else { assert (s + t)[i] == t[i - |s|]; }
      }
    }
    if s == [] {
      assert s + t == t;
    } else {
      assert (s + t)[0] == s[0];
      assert (s + t)[1..] == s[1..] + t;
      ConsumeAppend(s[1..], t, Feed(st, SextetOf(s[0]).value));
    }
  }

  /** The decoder's first output byte of a group puts back `b0`. */
  lemma {:induction false} Join0(b0: Byte, b1: Byte)
    ensures Split0(b0) as int * 4 + Split1(b0, b1) / 16 == b0
  {
    assert Split1(b0, b1) / 16 == b0 % 4;
  }

  /** The second output byte puts back `b1`. */
  lemma {:induction false} Join1(b0: Byte, b1: Byte, b2: Byte)
    ensures Split1(b0, b1) % 16 * 16 as int + Split2(b1, b2) / 4 == b1
  {
    assert Split1(b0, b1) % 16 == b1 / 16;
    assert Split2(b1, b2) / 4 == b1 % 16;
  }

  /** The third output byte puts back `b2`. */
  lemma {:induction false} Join2(b1: Byte, b2: Byte)
    ensures Split2(b1, b2) % 4 * 64 as int + Split3(b2) == b2
  {
    assert Split2(b1, b2) % 4 == b2 / 64;
  }

  lemma {:induction false} ConsumeCons(c: char, s: string, st: Scanner)
    requires SextetOf(c).Some? && AllData(s) && ScannerOk(st)
    ensures AllData([c] + s)
    ensures Consume([c] + s, st) == Consume(s, Feed(st, SextetOf(c).value))
  {
    assert ([c] + s)[0] == c && ([c] + s)[1..] == s;
    assert AllData([c] + s) by {
      forall i | 0 <= i < |[c] + s| ensures SextetOf(([c] + s)[i]).Some? {
        if i > 0 { assert ([c] + s)[i] == s[i - 1]; }
      }
    }
  }

  /** Reading two, three or four data characters feeds their values in order. */
  lemma {:induction false} ConsumeTwo(v0: Sextet, v1: Sextet, st: Scanner)
    requires ScannerOk(st)
    ensures AllData([AlphabetChar(v0), AlphabetChar(v1)])
    ensures Consume([AlphabetChar(v0), AlphabetChar(v1)], st) == Feed(Feed(st, v0), v1)
  {
    var c0, c1 := AlphabetChar(v0), AlphabetChar(v1);
    SextetOfAlphabetChar(v0);
    SextetOfAlphabetChar(v1);
    ConsumeCons(c1, [], Feed(st, v0));
    assert [c0, c1] == [c0] + [c1];
    ConsumeCons(c0, [c1], st);
  }

  lemma {:induction false} ConsumeThree(v0: Sextet, v1: Sextet, v2: Sextet, st: Scanner)
    requires ScannerOk(st)
    ensures AllData([AlphabetChar(v0), AlphabetChar(v1), AlphabetChar(v2)])
    ensures Consume([AlphabetChar(v0), AlphabetChar(v1), AlphabetChar(v2)], st) == Feed(Feed(Feed(st, v0), v1), v2)
  {
    var c0 := AlphabetChar(v0);
    SextetOfAlphabetChar(v0);
    ConsumeTwo(v1, v2, Feed(st, v0));
    assert [c0, AlphabetChar(v1), AlphabetChar(v2)] == [c0] + [AlphabetChar(v1), AlphabetChar(v2)];
    ConsumeCons(c0, [AlphabetChar(v1), AlphabetChar(v2)], st);
  }

  lemma {:induction false} ConsumeFour(v0: Sextet, v1: Sextet, v2: Sextet, v3: Sextet, st: Scanner)
    requires ScannerOk(st)
    ensures AllData([AlphabetChar(v0), AlphabetChar(v1), AlphabetChar(v2), AlphabetChar(v3)])
    ensures Consume([AlphabetChar(v0), AlphabetChar(v1), AlphabetChar(v2), AlphabetChar(v3)], st)
      == Feed(Feed(Feed(Feed(st, v0), v1), v2), v3)
  {
    var c0 := AlphabetChar(v0);
    var rest := [AlphabetChar(v1), AlphabetChar(v2), AlphabetChar(v3)];
    SextetOfAlphabetChar(v0);
    ConsumeThree(v1, v2, v3, Feed(st, v0));
    assert [c0, AlphabetChar(v1), AlphabetChar(v2), AlphabetChar(v3)] == [c0] + rest;
    ConsumeCons(c0, rest, st);
  }

  lemma {:induction false} ConsumeGroup(b0: Byte, b1: Byte, b2: Byte, st: Scanner)
    requires ScannerOk(st) && st.quad == 0
    ensures AllData(Group(b0, b1, b2))
    ensures Consume(Group(b0, b1, b2), st) == Scanner(0, 0, 0, st.out + [b0, b1, b2])
  {
    var v0, v1, v2, v3 := Split0(b0), Split1(b0, b1), Split2(b1, b2), Split3(b2);
    ConsumeFour(v0, v1, v2, v3, st);
    var s2 := Feed(Feed(st, v0), v1);
    assert s2.out == st.out + [b0] by { Join0(b0, b1); }
    var s3 := Feed(s2, v2);
    assert s3.out == st.out + [b0, b1] by { Join1(b0, b1, b2); }
    assert Feed(s3, v3) == Scanner(0, 0, 0, st.out + [b0, b1, b2]) by { Join2(b1, b2); }
  }

  /** Two and three values fed from the start of a group. */
  lemma {:induction false} FeedTwo(st: Scanner, v0: Sextet, v1: Sextet)
    requires ScannerOk(st) && st.quad == 0
    ensures Feed(Feed(st, v0), v1) == Scanner(2, v1 % 16, 0, st.out + [v0 as int * 4 + v1 / 16])
  {
  }

  lemma {:induction false} FeedThree(st: Scanner, v0: Sextet, v1: Sextet, v2: Sextet)
    requires ScannerOk(st) && st.quad == 0
    ensures Feed(Feed(Feed(st, v0), v1), v2).out
      == st.out + [v0 as int * 4 + v1 / 16, (v1 % 16) as int * 16 + v2 / 4]
  {
    FeedTwo(st, v0, v1);
  }

  lemma {:induction false} ConsumeLastOne(b: Bytes, st: Scanner)
    requires ScannerOk(st) && st.quad == 0 && |b| == 1
    ensures AllData(Body(b))
    ensures Consume(Body(b), st).out == st.out + b
  {
    var v0, v1 := Split0(b[0]), Split1(b[0], 0);
    ConsumeTwo(v0, v1, st);
    FeedTwo(st, v0, v1);
    Join0(b[0], 0);
    assert [b[0]] == b;
  }

  lemma {:induction false} ConsumeLastTwo(b: Bytes, st: Scanner)
    requires ScannerOk(st) && st.quad == 0 && |b| == 2
    ensures AllData(Body(b))
    ensures Consume(Body(b), st).out == st.out + b
  {
    var v0, v1, v2 := Split0(b[0]), Split1(b[0], b[1]), Split2(b[1], 0);
    ConsumeThree(v0, v1, v2, st);
    FeedThree(st, v0, v1, v2);
    Join0(b[0], b[1]);
    Join1(b[0], b[1], 0);
    assert [b[0], b[1]] == b;
  }

  /** Reading the data characters of `b` from the start of a group yields exactly `b`. */
  lemma {:induction false} ConsumeBody(b: Bytes, st: Scanner)
    requires ScannerOk(st) && st.quad == 0
    ensures AllData(Body(b))
    ensures Consume(Body(b), st).out == st.out + b
    decreases |b|
  {
    if |b| == 0 {
      assert st.out + b == st.out;
    } else if |b| == 1 {
      ConsumeLastOne(b, st);
    } else if |b| == 2 {
      ConsumeLastTwo(b, st);
    } else {
      var g, rest := Group(b[0], b[1], b[2]), Body(b[3..]);
      var mid := Scanner(0, 0, 0, st.out + [b[0], b[1], b[2]]);
      assert AllData(g) && Consume(g, st) == mid by { ConsumeGroup(b[0], b[1], b[2], st); }
      assert AllData(rest) && Consume(rest, mid).out == mid.out + b[3..] by { ConsumeBody(b[3..], mid); }
      assert Consume(g + rest, st) == Consume(rest, mid) by { ConsumeAppend(g, rest, st); }
      assert Body(b) == g + rest;
      assert st.out + [b[0], b[1], b[2]] + b[3..] == st.out + b;
    }
  }

  /** One data character moves the decoder on by its sextet. */
  lemma {:induction false} ScanData(s: string, st: Scanner, v: Sextet)
    requires ScannerOk(st) && s != [] && s[0] != '=' && SextetOf(s[0]) == Some(v)
    ensures Scan(s, st) == Scan(s[1..], Feed(st, v))
  {
  }

  /** A character outside the alphabet is skipped. */
  lemma {:induction false} ScanSkip(s: string, st: Scanner)
    requires ScannerOk(st) && s != [] && s[0] != '=' && SextetOf(s[0]) == None
    ensures Scan(s, st) == Scan(s[1..], st)
  {
  }

  /** What a run of '=' does to the decoder. */
  lemma {:induction false} ScanEquals(n: nat, st: Scanner)
    requires ScannerOk(st) && (st.quad >= 2 ==> st.quad + st.pads < 4)
    ensures st.quad < 2 ==> Scan(Equals(n), st) == (if st.quad == 0 then Some(st.out) else None)
    ensures st.quad >= 2 ==> Scan(Equals(n), st) == (if st.quad + st.pads + n >= 4 then Some(st.out) else None)
    decreases n
  {
    if n > 0 {
      var e := Equals(n);
      assert e[0] == '=' && e[1..] == Equals(n - 1);
      if st.quad >= 2 {
        if st.quad + st.pads + 1 < 4 {
          var next := st.(pads := st.pads + 1);
          ScanEquals(n - 1, next);
          assert Scan(e, st) == Scan(Equals(n - 1), next);
        }
      } else {
        ScanEquals(n - 1, st);
        assert Scan(e, st) == Scan(Equals(n - 1), st);
      }
    }
  }

  /** Enough padding completes the last quad of a body whose length is not 1 modulo 4. */
  lemma {:induction false} PaddingSuffices(len: nat, n: nat)
    requires len % 4 != 1 && n >= (4 - len % 4) % 4
    ensures len % 4 == 0 || len % 4 + n >= 4
  {
  }

  /**
   * The data characters of `b` followed by at least the padding they need
   * decode to `b`, whatever extra '=' follow.
   */
  lemma {:induction false} DecodeBodyPadded(b: Bytes, n: nat)
    requires n >= (4 - |Body(b)| % 4) % 4
    ensures Decode(Body(b) + Equals(n)) == Some(b)
  {
    var body := Body(b);
    assert AllData(body) && Consume(body, Start).out == b by { ConsumeBody(b, Start); }
    var after := Consume(body, Start);
    assert Decode(body + Equals(n)) == Scan(body + Equals(n), Start) by { PaddedIsAscii(body, n); }
    assert Scan(body + Equals(n), Start) == Scan(Equals(n), after) by { ScanConsume(body, Equals(n), Start); }
    var q := after.quad;
    assert q == |body| % 4 && after.pads == 0;
    assert q != 1 by { BodyLength(b); }
    assert q == 0 || q + n >= 4 by { PaddingSuffices(|body|, n); }
    assert Scan(Equals(n), after) == Some(b) by {
      ScanEquals(n, after);
    }
  }

  /** Decoding inverts urlsafe_b64encode. */
  lemma {:induction false} DecodeEncode(b: Bytes)
    ensures Decode(Encode(b)) == Some(b)
  {
    BodyLength(b);
    PaddingArith(|b|, |Body(b)|);
    DecodeBodyPadded(b, (3 - |b| % 3) % 3);
  }

  lemma {:induction false} StripEquals(s: string, n: nat)
    requires s == [] || s[|s| - 1] != '='
    ensures StripPadding(s + Equals(n)) == s
    decreases n
  {
    if n > 0 {
      assert (s + Equals(n))[..|s + Equals(n)| - 1] == s + Equals(n - 1);
      StripEquals(s, n - 1);
    } else {
      assert s + Equals(0) == s;
    }
  }

  /** Stripping the padding of an encoding leaves its data characters. */
  lemma {:induction false} StripEncode(b: Bytes)
    ensures StripPadding(Encode(b)) == Body(b)
  {
    var body := Body(b);
    assert body == [] || InAlphabet(body[|body| - 1]);
    StripEquals(body, (3 - |b| % 3) % 3);
  }

  lemma {:induction false} PaddedIsAscii(s: string, n: nat)
    requires AllData(s)
    ensures IsAscii(s + Equals(n))
  {
    forall i | 0 <= i < |s + Equals(n)| ensures (s + Equals(n))[i] as int < 128 {
      if i < |s| {
        assert (s + Equals(n))[i] == s[i] && SextetOf(s[i]).Some?;
      } else {
        assert (s + Equals(n))[i] == '=';
      }
    }
  }

  /**
   * For a string of data characters only, the padding the pipe codec
   * restores decodes exactly as the minimal padding `(-len) % 4` would:
   * the four redundant '=' after a complete group are skipped. The
   * decode fails precisely when one data character is left over.
   */
  lemma {:induction false} PadDecodesAsMinimalPadding(s: string)
    requires AllData(s)
    ensures Decode(Pad(s)) == Decode(s + Equals((4 - |s| % 4) % 4))
    ensures Decode(Pad(s)).Some? <==> |s| % 4 != 1
  {
    var k, p := (4 - |s| % 4) % 4, 4 - |s| % 4;
    var st := Consume(s, Start);
    assert st.quad == |s| % 4 && st.pads == 0;
    assert Scan(Equals(p), st) == Scan(Equals(k), st) && (Scan(Equals(p), st).Some? <==> st.quad != 1) by {
      ScanEquals(p, st);
      ScanEquals(k, st);
    }
    assert Decode(Pad(s)) == Scan(Equals(p), st) by {
      PaddedIsAscii(s, p);
      ScanConsume(s, Equals(p), Start);
    }
    assert Decode(s + Equals(k)) == Scan(Equals(k), st) by {
      PaddedIsAscii(s, k);
      ScanConsume(s, Equals(k), Start);
    }
  }

  lemma {:induction false} EqualsAppend(m: nat, n: nat)
    ensures Equals(m) + Equals(n) == Equals(m + n)
    decreases n
  {
    if n > 0 {
      EqualsAppend(m, n - 1);
      assert Equals(m) + Equals(n) == Equals(m) + Equals(n - 1) + ['='];
    }
  }

  /**
   * Restoring padding with `Pad` before decoding recovers the bytes from
   * the padded encoding and from the encoding with its '=' stripped alike.
   */
  lemma {:induction false} PadThenDecode(b: Bytes)
    ensures Decode(Pad(Encode(b))) == Some(b)
    ensures Decode(Pad(StripPadding(Encode(b)))) == Some(b)
  {
    PadStrippedDecodes(b);
    PadPaddedDecodes(b);
  }

  lemma {:induction false} PadStrippedDecodes(b: Bytes)
    ensures Decode(Pad(StripPadding(Encode(b)))) == Some(b)
  {
    var body := Body(b);
    assert Pad(StripPadding(Encode(b))) == body + Equals(4 - |body| % 4) by { StripEncode(b); }
    PadCoversMinimal(|body|);
    DecodeBodyPadded(b, 4 - |body| % 4);
  }

  lemma {:induction false} PadPaddedDecodes(b: Bytes)
    ensures Decode(Pad(Encode(b))) == Some(b)
  {
    var body, k := Body(b), (3 - |b| % 3) % 3;
    BodyLength(b);
    assert Pad(Encode(b)) == (body + Equals(k)) + Equals(4);
    EqualsAppend(k, 4);
    assert (body + Equals(k)) + Equals(4) == body + (Equals(k) + Equals(4));
    DecodeBodyPadded(b, k + 4);
  }
}
