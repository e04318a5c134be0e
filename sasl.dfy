/** The DIGEST-MD5 step of the XMPP SASL login (xmpp/sasl.py): the server's
    challenge is parsed into its fields and the client's response string is
    assembled, following the digest computation of RFC 2831 section 2.1.2.1.
    MD5, base64 and the random source are parameters; `hexlify` and
    `unhexlify` are modelled. Byte strings are strings of chars below 256. */
module Sasl {
  import opened Common

  const INDEX_ERROR := "IndexError"
  const KEY_ERROR := "KeyError"
  const TYPE_ERROR := "TypeError"
  const NC := "00000001"
  const QOP := "auth"

  predicate IsBytes(s: string)
  {
    forall i | 0 <= i < |s| :: s[i] as int < 256
  }

  // ---------------------------------------------------------------------
  // hexlify / unhexlify

  /** `binascii.hexlify`: two lower-case hex digits per byte. */
  function Hexlify(s: string): (h: string)
    requires IsBytes(s)
    ensures |h| == 2 * |s| && DigitsOnly(h)
  {
    if s == [] then []
    else
      var b := s[0] as int;
      DigitCharIsDigit(b / 16);
      DigitCharIsDigit(b % 16);
      [DigitChar(b / 16), DigitChar(b % 16)] + Hexlify(s[1..])
  }

  /** `binascii.unhexlify`: TypeError for an odd length or a non-hex digit. */
  function Unhexlify(h: string): (r: Result<string>)
    ensures r.Ok? ==> |r.value| * 2 == |h| && IsBytes(r.value)
  {
    if h == [] then Ok([])
    else if |h| == 1 then Err(TYPE_ERROR)
    else match (HexDigitValue(h[0]), HexDigitValue(h[1]))
      case (Some(hi), Some(lo)) =>
        (match Unhexlify(h[2..])
          case Ok(rest) => Ok([(hi * 16 + lo) as char] + rest)
          case Err(e) => Err(e))
      case _ => Err(TYPE_ERROR)
  }

  /** `unhexlify(hexlify(s)) == s`. */
  lemma {:induction false} HexRoundTrip(s: string)
    requires IsBytes(s)
    ensures Unhexlify(Hexlify(s)) == Ok(s)
  {
    if s != [] {
      var b := s[0] as int;
      var h := Hexlify(s);
      assert h[2..] == Hexlify(s[1..]);
      assert HexDigitValue(h[0]) == Some(b / 16) && HexDigitValue(h[1]) == Some(b % 16);
      HexRoundTrip(s[1..]);
      assert [(b / 16 * 16 + b % 16) as char] + s[1..] == s;
    }
  }

  // ---------------------------------------------------------------------
  // The challenge

  /** Replacing a char the text does not hold leaves it as it is. */
  lemma ReplaceAbsent(s: string, a: char, b: char)
    requires a !in s
    ensures ReplaceChar(s, a, b) == s
  {
  }

  lemma ReplaceConcat(s: string, t: string, a: char, b: char)
    ensures ReplaceChar(s + t, a, b) == ReplaceChar(s, a, b) + ReplaceChar(t, a, b)
  {
  }

  /** One pair of surrounding double quotes removed; `value[1:-1]` of the
      one-char value `"` is empty. */
  function Unquote(v: string): (r: string)
    requires v != []
    ensures |r| <= |v|
  {
    if v[0] == '"' && v[|v| - 1] == '"' then (if |v| >= 2 then v[1..|v| - 1] else []) else v
  }

  /** What one comma-separated piece of the challenge gives. */
  datatype Piece = Skipped | Empty | Pair(key: string, value: string)

  /** A piece without '=' is skipped; otherwise the key is the stripped text
      before the first '=' with '-' made '_', the value the stripped text after
      it, unquoted; an empty value fails `value[0]` with IndexError. */
  function PieceOf(x: string): (p: Piece)
    ensures p.Skipped? <==> '=' !in x
    ensures p.Pair? ==> '-' !in p.key
  {
    match FindChar(x, '=')
      case None => Skipped
      case Some(i) =>
        var key := Strip(x[..i]);
        var value := Strip(x[i + 1..]);
        if value == [] then Empty else Pair(ReplaceChar(key, '-', '_'), Unquote(value))
  }

  /** A piece with '=' at `i` is cut there. */
  lemma PieceAt(x: string, i: nat)
    requires FindChar(x, '=') == Some(i)
    ensures var value := Strip(x[i + 1..]);
      PieceOf(x) == if value == [] then Empty else Pair(ReplaceChar(Strip(x[..i]), '-', '_'), Unquote(value))
  {
  }

  /** The dictionary after the pieces are entered one after the other into `c`. */
  function Fields(pieces: seq<string>, c: map<string, string>): (r: Result<map<string, string>>)
    ensures r.Err? ==> r.error == INDEX_ERROR
    decreases |pieces|
  {
    if pieces == [] then Ok(c)
    else match PieceOf(pieces[0])
      case Skipped => Fields(pieces[1..], c)
      case Empty => Err(INDEX_ERROR)
      case Pair(k, v) => Fields(pieces[1..], c[k := v])
  }

  /** The parsing loop of `response` over the decoded challenge. */
  method ParseChallenge(decoded: string) returns (r: Result<map<string, string>>)
    ensures r == Fields(Split(decoded, ','), map[])
  {
    var pieces := Split(decoded, ',');
    var c: map<string, string> := map[];
    var k := 0;
    while k < |pieces|
      invariant 0 <= k <= |pieces|
      invariant Fields(pieces[k..], c) == Fields(pieces, map[])
    {
      assert pieces[k..][1..] == pieces[k + 1..];
      var p := EnterPiece(pieces[k], c);
      if p.Err? {
        return p;
      }
      c := p.value;
      k := k + 1;
    }
    return Ok(c);
  }

  /** One turn of the loop: the piece `x` entered into the dictionary `c`. */
  method EnterPiece(x: string, c: map<string, string>) returns (r: Result<map<string, string>>)
    ensures r == match PieceOf(x)
      case Skipped => Ok(c)
      case Empty => Err(INDEX_ERROR)
      case Pair(k, v) => Ok(c[k := v])
  {
    var i := FindChar(x, '=');
    if i.None? {
      return Ok(c);
    }
    PieceAt(x, i.value);
    var key := Strip(x[..i.value]);
    var value := Strip(x[i.value + 1..]);
    if value == [] {
      return Err(INDEX_ERROR);
    }
    value := Unquote(value);
    key := ReplaceChar(key, '-', '_');
    return Ok(c[key := value]);
  }

  /** A later piece with the same key overrides an earlier one: the last piece
      is entered on top of what the others give. */
  lemma {:induction false} LaterOverrides(pieces: seq<string>, x: string, c: map<string, string>)
    ensures Fields(pieces + [x], c) ==
      match Fields(pieces, c)
        case Err(e) => Err(e)
        case Ok(m) => (match PieceOf(x)
          case Skipped => Ok(m)
          case Empty => Err(INDEX_ERROR)
          case Pair(k, v) => Ok(m[k := v]))
    decreases |pieces|
  {
    if pieces == [] {
      assert [x][1..] == [];
    } else {
      assert (pieces + [x])[1..] == pieces[1..] + [x];
      match PieceOf(pieces[0]) {
        case Skipped => LaterOverrides(pieces[1..], x, c);
        case Empty =>
        case Pair(k, v) => LaterOverrides(pieces[1..], x, c[k := v]);
      }
    }
  }

  /** A field as a server writes it, `key=value` or `key="value"`. */
  datatype Field = Field(key: string, value: string, quoted: bool)

  function FieldText(f: Field): string
  {
    f.key + "=" + (if f.quoted then "\"" + f.value + "\"" else f.value)
  }

  function FieldTexts(fs: seq<Field>): (r: seq<string>)
    ensures |r| == |fs| && forall i | 0 <= i < |fs| :: r[i] == FieldText(fs[i])
  {
    if fs == [] then [] else [FieldText(fs[0])] + FieldTexts(fs[1..])
  }

  /** Fields the parser reads back: a non-empty key without blank, '=' or
      ',', a value without ','; an unquoted value also non-empty, without
      blank at either end and not starting with '"'. */
  predicate Readable(f: Field)
  {
    f.key != [] && NoBlank(f.key) && '=' !in f.key && ',' !in f.key && ',' !in f.value &&
    (!f.quoted ==> f.value != [] && !IsSpace(f.value[0]) && !IsSpace(f.value[|f.value| - 1]) && f.value[0] != '"')
  }

  /** The key under which the parser stores a field. */
  function StoredKey(f: Field): string
  {
    ReplaceChar(f.key, '-', '_')
  }

  /** The dictionary the fields give, entered one after the other into `c`. */
  function Entered(fs: seq<Field>, c: map<string, string>): map<string, string>
    decreases |fs|
  {
    if fs == [] then c else Entered(fs[1..], c[StoredKey(fs[0]) := fs[0].value])
  }

  lemma StripKeeps(s: string)
    requires s != [] && !IsSpace(s[0]) && !IsSpace(s[|s| - 1])
    ensures Strip(s) == s
  {
  }

  /** The first '=' of `key=rest` ends a key that has none. */
  lemma KeyPart(key: string, rest: string)
    requires '=' !in key
    ensures var x := key + "=" + rest;
      FindChar(x, '=') == Some(|key|) && x[..|key|] == key && x[|key| + 1..] == rest
  {
    var x := key + "=" + rest;
    assert x[|key|] == '=';
    assert forall j | 0 <= j < |key| :: x[j] == key[j];
    assert x[..|key|] == key;
    assert x[|key| + 1..] == rest;
  }

  /** The value text of a readable field strips and unquotes to its value. */
  lemma ValuePart(f: Field)
    requires Readable(f)
    ensures var v := if f.quoted then "\"" + f.value + "\"" else f.value;
      Strip(v) == v && v != [] && Unquote(v) == f.value
  {
    var v := if f.quoted then "\"" + f.value + "\"" else f.value;
    StripKeeps(v);
    if f.quoted {
      assert v[1..|v| - 1] == f.value;
    }
  }

  /** A readable field is read back as its key, '-' made '_', and its value. */
  lemma FieldReadBack(f: Field)
    requires Readable(f)
    ensures PieceOf(FieldText(f)) == Pair(StoredKey(f), f.value)
  {
    var v := if f.quoted then "\"" + f.value + "\"" else f.value;
    KeyPart(f.key, v);
    NoBlankStrip(f.key);
    ValuePart(f);
  }

  /** A readable field's text holds no ','. */
  lemma FieldTextFree(f: Field)
    requires Readable(f)
    ensures ',' !in FieldText(f)
  {
    var v := if f.quoted then "\"" + f.value + "\"" else f.value;
    assert ',' !in v;
    assert FieldText(f) == (f.key + "=") + v;
  }

  /** Readable fields joined with ',' parse back into the dictionary they
      describe, a later field overriding an earlier one with the same key. */
  lemma {:induction false} FieldsRoundTrip(fs: seq<Field>, c: map<string, string>)
    requires forall i | 0 <= i < |fs| :: Readable(fs[i])
    ensures Fields(FieldTexts(fs), c) == Ok(Entered(fs, c))
    decreases |fs|
  {
    if fs != [] {
      FieldReadBack(fs[0]);
      assert FieldTexts(fs)[1..] == FieldTexts(fs[1..]);
      FieldsRoundTrip(fs[1..], c[StoredKey(fs[0]) := fs[0].value]);
    }
  }

  /** A challenge made of readable fields parses into the dictionary they
      describe. */
  lemma ChallengeRoundTrip(fs: seq<Field>)
    requires fs != [] && forall i | 0 <= i < |fs| :: Readable(fs[i])
    ensures Fields(Split(JoinWith(FieldTexts(fs), ','), ','), map[]) == Ok(Entered(fs, map[]))
  {
    forall i | 0 <= i < |fs| ensures ',' !in FieldTexts(fs)[i] {
      FieldTextFree(fs[i]);
    }
    SplitJoinWith(FieldTexts(fs), ',');
    FieldsRoundTrip(fs, map[]);
  }

  /** The value of a key in the dictionary is that of the last field with
      the key. */
  lemma {:induction false} LastFieldWins(fs: seq<Field>, c: map<string, string>, i: nat)
    requires i < |fs|
    requires forall j | i < j < |fs| :: StoredKey(fs[j]) != StoredKey(fs[i])
    ensures var key := StoredKey(fs[i]);
      key in Entered(fs, c) && Entered(fs, c)[key] == fs[i].value
    decreases |fs|
  {
    var key := StoredKey(fs[i]);
    var next := c[StoredKey(fs[0]) := fs[0].value];
    if i == 0 {
      EnteredKeeps(fs[1..], next, key);
    } else {
      forall j | i - 1 < j < |fs[1..]| ensures StoredKey(fs[1..][j]) != StoredKey(fs[1..][i - 1]) {
        assert fs[1..][j] == fs[j + 1];
      }
      assert fs[1..][i - 1] == fs[i];
      LastFieldWins(fs[1..], next, i - 1);
    }
  }

  /** A key no field carries keeps its entry. */
  lemma {:induction false} EnteredKeeps(fs: seq<Field>, c: map<string, string>, key: string)
    requires key in c && forall j | 0 <= j < |fs| :: StoredKey(fs[j]) != key
    ensures key in Entered(fs, c) && Entered(fs, c)[key] == c[key]
    decreases |fs|
  {
    if fs != [] {
      forall j | 0 <= j < |fs[1..]| ensures StoredKey(fs[1..][j]) != key {
        assert fs[1..][j] == fs[j + 1];
      }
      EnteredKeeps(fs[1..], c[StoredKey(fs[0]) := fs[0].value], key);
    }
  }

  // ---------------------------------------------------------------------
  // The response

  /** The fields of the response, in their fixed order. */
  function ResponseFields(user: string, realm: string, nonce: string, cnonce: string, digestUri: string,
                          response: string): (fs: seq<Field>)
    ensures |fs| == 9
    ensures fs[0] == Field("username", user, true) && fs[1] == Field("realm", realm, true)
    ensures fs[2] == Field("nonce", nonce, true) && fs[3] == Field("cnonce", cnonce, true)
    ensures fs[4] == Field("nc", NC, false) && fs[5] == Field("qop", QOP, false)
    ensures fs[6] == Field("digest-uri", digestUri, true) && fs[7] == Field("response", response, false)
    ensures fs[8] == Field("charset", "utf-8", false)
  {
    [Field("username", user, true), Field("realm", realm, true), Field("nonce", nonce, true), Field("cnonce", cnonce, true)] +
    [Field("nc", NC, false)] + [Field("qop", QOP, false)] + [Field("digest-uri", digestUri, true)] +
    [Field("response", response, false)] + [Field("charset", "utf-8", false)]
  }

  /** The response text before base64: the fields joined with ','. */
  function ResponseText(user: string, realm: string, nonce: string, cnonce: string, digestUri: string,
                        response: string): string
  {
    JoinWith(FieldTexts(ResponseFields(user, realm, nonce, cnonce, digestUri, response)), ',')
  }

  /** `hex(random.getrandbits(128))[2:-1].lower()`: the lower-case hex digits
      of the 128 random bits, without the `0x` and the long's `L`. */
  function CNonce(bits: nat): (r: string)
    requires bits < 0x1_0000_0000_0000_0000_0000_0000_0000_0000
    ensures r != [] && DigitsOnly(r)
  {
    TextIsDigits(bits, 16);
    Hex(bits)
  }

  /** The digest of RFC 2831: `HEX(KD(HEX(H(A1)), nonce:nc:cnonce:qop:HEX(H(A2))))`,
      with `A1 = UNHEX(HEX(H(user:realm:password))):nonce:cnonce` and
      `A2 = AUTHENTICATE:digest-uri`. */
  function Digest(md5: string -> string, user: string, realm: string, password: string, nonce: string,
                  cnonce: string, digestUri: string): (r: Result<string>)
    requires forall s :: IsBytes(md5(s))
    ensures r.Ok? && DigitsOnly(r.value)
  {
    HexRoundTrip(md5(user + ":" + realm + ":" + password));
    var digest := Hexlify(md5(user + ":" + realm + ":" + password));
    var a2 := "AUTHENTICATE:" + digestUri;
    match Unhexlify(digest)
      case Err(e) => Err(e)
      case Ok(raw) =>
        var a1 := raw + ":" + nonce + ":" + cnonce;
        Ok(Hexlify(md5(Hexlify(md5(a1)) + ":" + nonce + ":" + NC + ":" + cnonce + ":" + QOP + ":" + Hexlify(md5(a2)))))
  }

  /** The round trip through hex text gives A1 the raw MD5 of
      `user:realm:password`, as RFC 2831 prescribes. */
  lemma DigestOfRawHash(md5: string -> string, user: string, realm: string, password: string, nonce: string,
                        cnonce: string, digestUri: string)
    requires forall s :: IsBytes(md5(s))
    ensures var a1 := md5(user + ":" + realm + ":" + password) + ":" + nonce + ":" + cnonce;
      Digest(md5, user, realm, password, nonce, cnonce, digestUri) ==
        Ok(Hexlify(md5(Hexlify(md5(a1)) + ":" + nonce + ":" + NC + ":" + cnonce + ":" + QOP + ":" +
                       Hexlify(md5("AUTHENTICATE:" + digestUri)))))
  {
    HexRoundTrip(md5(user + ":" + realm + ":" + password));
  }

  /** `"".join(s.split("\n"))`: every line break removed. */
  function NoLineBreaks(s: string): (r: string)
    ensures '\n' !in r
    ensures '\n' !in s ==> r == s
  {
    var parts := Split(s, '\n');
    JoinFree(parts, '\n');
    SplitNone(s, '\n');
    Join(parts)
  }

  lemma {:induction false} JoinFree(parts: seq<string>, c: char)
    requires forall i | 0 <= i < |parts| :: c !in parts[i]
    ensures c !in Join(parts)
    decreases |parts|
  {
    if parts != [] {
      JoinFree(parts[1..], c);
    }
  }

  lemma SplitNone(s: string, c: char)
    ensures c !in s ==> Split(s, c) == [s] && Join([s]) == s
  {
    if c !in s {
      assert FindChar(s, c).None?;
    }
  }

  /** `response(challenge, user, password, realm, digest_uri)`; the decoded
      challenge and the random bits are passed in. KeyError without a nonce. */
  method Response(decoded: string, user: string, password: string, realm: string, digestUri: string,
                  md5: string -> string, encode: string -> string, bits: nat) returns (r: Result<string>)
    requires forall s :: IsBytes(md5(s))
    requires bits < 0x1_0000_0000_0000_0000_0000_0000_0000_0000
    ensures r == ResponseOf(Fields(Split(decoded, ','), map[]), user, password, realm, digestUri, md5, encode, bits)
  {
    var c := ParseChallenge(decoded);
    if c.Err? {
      return Err(c.error);
    }
    if "nonce" !in c.value {
      return Err(KEY_ERROR);
    }
    var nonce := c.value["nonce"];
    var cnonce := CNonce(bits);
    var digest := Digest(md5, user, realm, password, nonce, cnonce, digestUri);
    r := Ok(NoLineBreaks(encode(ResponseText(user, realm, nonce, cnonce, digestUri, digest.value))));
  }

  /** What `response` returns for a parsed challenge. */
  function ResponseOf(c: Result<map<string, string>>, user: string, password: string, realm: string, digestUri: string,
                      md5: string -> string, encode: string -> string, bits: nat): (r: Result<string>)
    requires forall s :: IsBytes(md5(s))
    requires bits < 0x1_0000_0000_0000_0000_0000_0000_0000_0000
    ensures c.Ok? && "nonce" !in c.value ==> r == Err(KEY_ERROR)
    ensures c.Err? ==> r == Err(c.error)
    ensures r.Ok? ==> '\n' !in r.value
  {
    if c.Err? then Err(c.error)
    else if "nonce" !in c.value then Err(KEY_ERROR)
    else
      var nonce := c.value["nonce"];
      var cnonce := CNonce(bits);
      match Digest(md5, user, realm, password, nonce, cnonce, digestUri)
        case Err(e) => Err(e)
        case Ok(d) => Ok(NoLineBreaks(encode(ResponseText(user, realm, nonce, cnonce, digestUri, d))))
  }

  /** With a nonce in the challenge, `response` never fails: the hex text of
      an MD5 digest always unhexlifies. */
  lemma ResponseSucceeds(c: map<string, string>, user: string, password: string, realm: string,
                         digestUri: string, md5: string -> string, encode: string -> string, bits: nat)
    requires forall s :: IsBytes(md5(s))
    requires bits < 0x1_0000_0000_0000_0000_0000_0000_0000_0000
    requires "nonce" in c
    ensures Digest(md5, user, realm, password, c["nonce"], CNonce(bits), digestUri).Ok?
    ensures ResponseOf(Ok(c), user, password, realm, digestUri, md5, encode, bits).Ok?
  {
    HexRoundTrip(md5(user + ":" + realm + ":" + password));
  }

  /** The response text, read with the challenge parser, carries nc=00000001,
      qop=auth, the digest URI under `digest_uri` and the digest under
      `response`, when no quoted value holds a ','. */
  lemma ResponseReadBack(user: string, realm: string, nonce: string, cnonce: string, digestUri: string, response: string)
    requires ',' !in user && ',' !in realm && ',' !in nonce && ',' !in cnonce && ',' !in digestUri
    requires response != [] && DigitsOnly(response)
    ensures var m := Fields(Split(ResponseText(user, realm, nonce, cnonce, digestUri, response), ','), map[]);
      m.Ok? && "nc" in m.value && m.value["nc"] == NC && "qop" in m.value && m.value["qop"] == QOP &&
      "digest_uri" in m.value && m.value["digest_uri"] == digestUri &&
      "response" in m.value && m.value["response"] == response
  {
    var pre := [Field("username", user, true), Field("realm", realm, true), Field("nonce", nonce, true),
                Field("cnonce", cnonce, true)];
    ResponseParsed(user, realm, nonce, cnonce, digestUri, response);
    ResponseKeys();
    FiveEntered(pre, Field("nc", NC, false), Field("qop", QOP, false), Field("digest-uri", digestUri, true),
                Field("response", response, false), Field("charset", "utf-8", false), map[]);
    KeysApart();
    LastUpdates(Entered(pre, map[]), "nc", "qop", "digest_uri", "response", "charset",
                NC, QOP, digestUri, response, "utf-8");
  }

  /** The stored keys of the five last fields differ, having different lengths. */
  lemma KeysApart()
    ensures "nc" != "qop" && "nc" != "digest_uri" && "nc" != "response" && "nc" != "charset"
    ensures "qop" != "digest_uri" && "qop" != "response" && "qop" != "charset"
    ensures "digest_uri" != "response" && "digest_uri" != "charset" && "response" != "charset"
  {
    assert |"nc"| == 2 && |"qop"| == 3 && |"digest_uri"| == 10 && |"response"| == 8 && |"charset"| == 7;
  }

  /** After five updates with distinct keys the first four keys keep their values. */
  lemma LastUpdates<V>(m: map<string, V>, k4: string, k5: string, k6: string, k7: string, k8: string,
                       v4: V, v5: V, v6: V, v7: V, v8: V)
    requires k4 != k5 && k4 != k6 && k4 != k7 && k4 != k8 && k5 != k6 && k5 != k7 && k5 != k8
    requires k6 != k7 && k6 != k8 && k7 != k8
    ensures var n := m[k4 := v4][k5 := v5][k6 := v6][k7 := v7][k8 := v8];
      k4 in n && n[k4] == v4 && k5 in n && n[k5] == v5 && k6 in n && n[k6] == v6 && k7 in n && n[k7] == v7
  {
  }

  /** The response text parses into the dictionary its fields describe. */
  lemma ResponseParsed(user: string, realm: string, nonce: string, cnonce: string, digestUri: string, response: string)
    requires ',' !in user && ',' !in realm && ',' !in nonce && ',' !in cnonce && ',' !in digestUri
    requires response != [] && DigitsOnly(response)
    ensures var fs := ResponseFields(user, realm, nonce, cnonce, digestUri, response);
      Fields(Split(ResponseText(user, realm, nonce, cnonce, digestUri, response), ','), map[]) == Ok(Entered(fs, map[]))
  {
    ResponseReadable(user, realm, nonce, cnonce, digestUri, response);
    ChallengeRoundTrip(ResponseFields(user, realm, nonce, cnonce, digestUri, response));
  }

  /** Every field of the response is one the parser reads back. */
  lemma ResponseReadable(user: string, realm: string, nonce: string, cnonce: string, digestUri: string, response: string)
    requires ',' !in user && ',' !in realm && ',' !in nonce && ',' !in cnonce && ',' !in digestUri
    requires response != [] && DigitsOnly(response)
    ensures var fs := ResponseFields(user, realm, nonce, cnonce, digestUri, response);
      forall i | 0 <= i < |fs| :: Readable(fs[i])
  {
    var fs := ResponseFields(user, realm, nonce, cnonce, digestUri, response);
    PlainKeys();
    DigestUriKey();
    TokenWords();
    DigitsToken(response);
    QuotedReadable("username", user);
    QuotedReadable("realm", realm);
    QuotedReadable("nonce", nonce);
    QuotedReadable("cnonce", cnonce);
    BareReadable("nc", NC);
    BareReadable("qop", QOP);
    QuotedReadable("digest-uri", digestUri);
    BareReadable("response", response);
    BareReadable("charset", "utf-8");
    NineReadable(fs);
  }

  lemma NineReadable(fs: seq<Field>)
    requires |fs| == 9 && Readable(fs[0]) && Readable(fs[1]) && Readable(fs[2]) && Readable(fs[3])
    requires Readable(fs[4]) && Readable(fs[5]) && Readable(fs[6]) && Readable(fs[7]) && Readable(fs[8])
    ensures forall i | 0 <= i < |fs| :: Readable(fs[i])
  {
  }

  /** Lower-case letters, digits and '-'. */
  predicate Token(v: string)
  {
    forall i | 0 <= i < |v| :: 'a' <= v[i] <= 'z' || '0' <= v[i] <= '9' || v[i] == '-'
  }

  lemma TokenWords()
    ensures Token(NC) && Token(QOP) && Token("utf-8")
  {
  }

  lemma DigitsToken(d: string)
    requires DigitsOnly(d)
    ensures Token(d)
  {
  }

  lemma QuotedReadable(key: string, value: string)
    requires KeyText(key) && ',' !in value
    ensures Readable(Field(key, value, true))
  {
  }

  lemma BareReadable(key: string, value: string)
    requires KeyText(key) && value != [] && Token(value)
    ensures Readable(Field(key, value, false))
  {
    assert forall i | 0 <= i < |value| :: value[i] != ',';
  }

  /** Five fields entered after `pre` are the five last updates of the dictionary. */
  lemma FiveEntered(pre: seq<Field>, f4: Field, f5: Field, f6: Field, f7: Field, f8: Field, c: map<string, string>)
    ensures Entered(pre + [f4] + [f5] + [f6] + [f7] + [f8], c) ==
      Entered(pre, c)[StoredKey(f4) := f4.value][StoredKey(f5) := f5.value][StoredKey(f6) := f6.value]
                     [StoredKey(f7) := f7.value][StoredKey(f8) := f8.value]
  {
    EnteredSnoc(pre, f4, c);
    EnteredSnoc(pre + [f4], f5, c);
    EnteredSnoc(pre + [f4] + [f5], f6, c);
    EnteredSnoc(pre + [f4] + [f5] + [f6], f7, c);
    EnteredSnoc(pre + [f4] + [f5] + [f6] + [f7], f8, c);
  }

  /** A field entered last holds its key. */
  lemma {:induction false} EnteredSnoc(fs: seq<Field>, f: Field, c: map<string, string>)
    ensures Entered(fs + [f], c) == Entered(fs, c)[StoredKey(f) := f.value]
    decreases |fs|
  {
    if fs == [] {
      assert ([] + [f])[1..] == [];
    } else {
      assert (fs + [f])[1..] == fs[1..] + [f];
      EnteredSnoc(fs[1..], f, c[StoredKey(fs[0]) := fs[0].value]);
    }
  }

  /** A key of the response: a field key the parser reads back as it is. */
  predicate PlainKey(key: string)
  {
    KeyText(key) && '-' !in key
  }

  /** A key that is read back whole: non-empty, without blank, '=' or ','. */
  predicate KeyText(key: string)
  {
    key != [] && NoBlank(key) && '=' !in key && ',' !in key
  }

  /** Lower-case letters only. */
  predicate Lowercase(key: string)
  {
    forall i | 0 <= i < |key| :: 'a' <= key[i] <= 'z'
  }

  lemma LowercaseKey(key: string)
    requires key != [] && Lowercase(key)
    ensures PlainKey(key)
  {
    forall i | 0 <= i < |key| ensures !IsSpace(key[i]) {
    }
  }

  lemma LowercaseWords()
    ensures Lowercase("username") && Lowercase("realm") && Lowercase("nonce") && Lowercase("cnonce")
    ensures Lowercase("nc") && Lowercase("qop") && Lowercase("response") && Lowercase("charset")
    ensures Lowercase("digest") && Lowercase("uri")
  {
  }

  lemma PlainKeys()
    ensures PlainKey("username") && PlainKey("realm") && PlainKey("nonce") && PlainKey("cnonce")
    ensures PlainKey("nc") && PlainKey("qop") && PlainKey("response") && PlainKey("charset")
    ensures PlainKey("digest") && PlainKey("uri")
  {
    LowercaseWords();
    LowercaseKey("username");
    LowercaseKey("realm");
    LowercaseKey("nonce");
    LowercaseKey("cnonce");
    LowercaseKey("nc");
    LowercaseKey("qop");
    LowercaseKey("response");
    LowercaseKey("charset");
    LowercaseKey("digest");
    LowercaseKey("uri");
  }

  /** `digest-uri` is read back as `digest_uri`. */
  lemma DigestUriKey()
    ensures KeyText("digest-uri")
    ensures ReplaceChar("digest-uri", '-', '_') == "digest_uri"
  {
    PlainKeys();
    assert "digest-uri" == "digest" + "-" + "uri";
    KeyJoin("digest", "uri");
    DigestUriText();
  }

  lemma KeyJoin(a: string, b: string)
    requires KeyText(a) && KeyText(b)
    ensures KeyText(a + "-" + b)
  {
    var k := a + "-" + b;
    forall i | 0 <= i < |k| ensures !IsSpace(k[i]) {
      if i < |a| { assert k[i] == a[i]; } else if i > |a| { assert k[i] == b[i - |a| - 1]; }
    }
  }

  lemma DigestUriText()
    ensures ReplaceChar("digest-uri", '-', '_') == "digest_uri"
  {
    PlainKeys();
    ReplaceDash("digest", "uri");
    assert "digest-uri" == "digest" + "-" + "uri";
    assert "digest_uri" == "digest" + "_" + "uri";
  }

  lemma ReplaceDash(a: string, b: string)
    requires '-' !in a && '-' !in b
    ensures ReplaceChar(a + "-" + b, '-', '_') == a + "_" + b
  {
    ReplaceConcat(a + "-", b, '-', '_');
    ReplaceConcat(a, "-", '-', '_');
    ReplaceAbsent(a, '-', '_');
    ReplaceAbsent(b, '-', '_');
  }

  /** The response's keys as the parser stores them. */
  lemma ResponseKeys()
    ensures ReplaceChar("nc", '-', '_') == "nc" && ReplaceChar("qop", '-', '_') == "qop"
    ensures ReplaceChar("digest-uri", '-', '_') == "digest_uri"
    ensures ReplaceChar("response", '-', '_') == "response" && ReplaceChar("charset", '-', '_') == "charset"
  {
    PlainKeys();
    DigestUriText();
    ReplaceAbsent("nc", '-', '_');
    ReplaceAbsent("qop", '-', '_');
    ReplaceAbsent("response", '-', '_');
    ReplaceAbsent("charset", '-', '_');
  }
}
