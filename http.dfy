/** The request and response containers of http/__init__.py, shared by the
    HTTP server and client. Header values are kept as the text `"%s"` gives
    them (the body setter stores the decimal text of the length). */
module Http {
  import opened Common

  /** The index of the first header whose name equals `key` ignoring ASCII
      case, searching from `i`. */
  function FindHeaderFrom(headers: seq<(string, string)>, key: string, i: nat): (r: Option<nat>)
    requires i <= |headers|
    ensures r.Some? ==> i <= r.value < |headers| && Lower(headers[r.value].0) == Lower(key)
    ensures r.Some? ==> forall j | i <= j < r.value :: Lower(headers[j].0) != Lower(key)
    ensures r.None? ==> forall j | i <= j < |headers| :: Lower(headers[j].0) != Lower(key)
    decreases |headers| - i
  {
    if i == |headers| then None
    else if Lower(headers[i].0) == Lower(key) then Some(i)
    else FindHeaderFrom(headers, key, i + 1)
  }

  /** `get_header(key, default)` on a header list: the value of the first header
      whose name matches case-insensitively, otherwise `default`. */
  function HeaderValue(headers: seq<(string, string)>, key: string, default: Option<string>): (r: Option<string>)
    ensures (forall j | 0 <= j < |headers| :: Lower(headers[j].0) != Lower(key)) ==> r == default
    ensures forall i | 0 <= i < |headers| && Lower(headers[i].0) == Lower(key) &&
      (forall j | 0 <= j < i :: Lower(headers[j].0) != Lower(key)) :: r == Some(headers[i].1)
  {
    match FindHeaderFrom(headers, key, 0)
    case None => default
    case Some(i) => Some(headers[i].1)
  }

  /** `int(status.split()[1])`: None for a missing token (IndexError) or one
      that is not a number (ValueError). */
  function StatusCodeOf(status: string): Option<int>
  {
    var w := Words(status);
    if |w| < 2 then None else ParseInt(w[1])
  }

  /** `status.split()[2]`: the third blank-separated token. */
  function StatusReasonOf(status: string): Option<string>
  {
    var w := Words(status);
    if |w| < 3 then None else Some(w[2])
  }

  /** `split()` of three words joined by single blanks. */
  lemma ThreeWords(a: string, b: string, c: string)
    requires a != [] && NoBlank(a) && b != [] && NoBlank(b) && c != [] && NoBlank(c)
    ensures Words(a + " " + b + " " + c) == [a, b, c]
  {
    var t := b + " " + c;
    Nest(a, b, c);
    WordsCons(a, t);
    WordsCons(b, c);
    WordsOne(c);
    Cons3(a, b, c);
  }

  /** Regrouping two blank-separated joins. */
  lemma Nest(a: string, b: string, t: string)
    ensures a + " " + b + " " + t == a + " " + (b + " " + t)
  {
  }

  lemma Cons3(a: string, b: string, c: string)
    ensures [a] + ([b] + [c]) == [a, b, c]
  {
    var w := [a] + ([b] + [c]);
    assert |w| == 3 && w[0] == a && w[1] == b && w[2] == c;
  }

  /** The decimal text of a number has no blank. */
  lemma NatTextNoBlank(code: nat)
    ensures IntToText(code) != [] && NoBlank(IntToText(code))
  {
    TextIsDigits(code, 10);
    DigitsNoBlank(IntToText(code));
  }

  /** A status line `version code reason` with a one-word reason: the code and
      the reason are read back. */
  lemma StatusLineParts(version: string, code: nat, reason: string)
    requires version != [] && NoBlank(version) && reason != [] && NoBlank(reason)
    ensures StatusCodeOf(version + " " + IntToText(code) + " " + reason) == Some(code)
    ensures StatusReasonOf(version + " " + IntToText(code) + " " + reason) == Some(reason)
  {
    NatTextNoBlank(code);
    ThreeWords(version, IntToText(code), reason);
    IntRoundTrip(code);
  }

  /** As written, a reason phrase of two words (as in "HTTP/1.1 404 Not Found")
      is cut to its first word, where the full phrase is the reason part. */
  lemma StatusReasonCut(version: string, code: nat, w1: string, w2: string)
    requires version != [] && NoBlank(version) && w1 != [] && NoBlank(w1) && w2 != [] && NoBlank(w2)
    ensures var s := version + " " + IntToText(code) + " " + (w1 + " " + w2);
      StatusReasonOf(s) == Some(w1) && ReasonPhrase(s) == Some(w1 + " " + w2) && w1 != w1 + " " + w2
  {
    NatTextNoBlank(code);
    WordsCons(w1, w2);
    WordsOne(w2);
    Cons2(w1, w2);
    FourWords(version, IntToText(code), w1, w2);
    ReasonPhraseParts(version, code, w1 + " " + w2);
  }

  lemma Cons2(a: string, b: string)
    ensures [a] + [b] == [a, b]
  {
    var w := [a] + [b];
    assert |w| == 2 && w[0] == a && w[1] == b;
  }

  lemma FourWords(a: string, b: string, c: string, d: string)
    requires a != [] && NoBlank(a) && b != [] && NoBlank(b) && Words(c + " " + d) == [c, d]
    ensures var w := Words(a + " " + b + " " + (c + " " + d));
      |w| == 4 && w[0] == a && w[1] == b && w[2] == c && w[3] == d
  {
    var t := b + " " + (c + " " + d);
    Nest(a, b, c + " " + d);
    WordsCons(a, t);
    WordsCons(b, c + " " + d);
    Cons4(a, b, c, d);
  }

  lemma Cons4(a: string, b: string, c: string, d: string)
    ensures var w := [a] + ([b] + [c, d]); |w| == 4 && w[0] == a && w[1] == b && w[2] == c && w[3] == d
  {
  }

  /** The text after the first `n` words and the blanks before each of them. */
  function AfterWords(s: string, n: nat): (r: string)
    ensures |r| <= |s|
    decreases n
  {
    if n == 0 then s
    else
      var t := StripLeft(s);
      AfterWords(t[WordLength(t)..], n - 1)
  }

  /** The reason phrase as the docstring describes it ("the reason part of the
      HTTP response line"), Python's `status.split(None, 2)[2]`: everything
      after the code, leading blanks removed. */
  function ReasonPhrase(status: string): (r: Option<string>)
    ensures r.Some? ==> r.value != [] && !IsSpace(r.value[0])
  {
    var t := StripLeft(AfterWords(status, 2));
    if t == [] then None else Some(t)
  }

  /** The full reason phrase of a status line `version code reason`, several
      words included, is read back. */
  lemma ReasonPhraseParts(version: string, code: nat, reason: string)
    requires version != [] && NoBlank(version) && reason != [] && !IsSpace(reason[0])
    ensures ReasonPhrase(version + " " + IntToText(code) + " " + reason) == Some(reason)
  {
    var c := IntToText(code);
    NatTextNoBlank(code);
    var s := version + " " + c + " " + reason;
    assert s == version + " " + (c + " " + reason);
    SkipWord(version, c + " " + reason);
    assert AfterWords(s, 2) == AfterWords(" " + (c + " " + reason), 1);
    StripBlank(c + " " + reason);
    SkipWord(c, reason);
    assert AfterWords(" " + (c + " " + reason), 1) == " " + reason;
    StripBlank(reason);
    StripLeftKeeps(reason);
  }

  lemma StripBlank(t: string)
    ensures StripLeft(" " + t) == StripLeft(t)
  {
    assert (" " + t)[1..] == t;
  }

  lemma StripLeftKeeps(t: string)
    requires t != [] && !IsSpace(t[0])
    ensures StripLeft(t) == t
  {
  }

  /** Skipping the first word of `a + " " + rest` (blanks before it included). */
  lemma SkipWord(a: string, rest: string)
    requires a != [] && NoBlank(a)
    ensures var s := a + " " + rest; StripLeft(s) == s && WordLength(s) == |a| && s[|a|..] == " " + rest
  {
    var s := a + " " + rest;
    assert s == a + (" " + rest);
    assert s[0] == a[0];
    WordLengthOf(a, " " + rest);
  }

  /** ": " at `i`. */
  predicate SepAt(s: string, i: int)
  {
    0 <= i && i + 1 < |s| && s[i] == ':' && s[i + 1] == ' '
  }

  /** The first ": " at or after `i`. */
  function FindSep(s: string, i: nat): (r: Option<nat>)
    requires i <= |s|
    ensures r.Some? ==> i <= r.value && SepAt(s, r.value)
    ensures r.Some? ==> forall j | i <= j < r.value :: !SepAt(s, j)
    ensures r.None? ==> forall j | i <= j < |s| :: !SepAt(s, j)
    decreases |s| - i
  {
    if i + 1 >= |s| then None
    else if SepAt(s, i) then Some(i)
    else FindSep(s, i + 1)
  }

  /** `key, value = line.split(': ')` (both the server and the client read
      header lines this way): the two sides of the only ": " of the
      line; None (ValueError) when there is none or more than one. */
  function HeaderSplit(line: string): (r: Option<(string, string)>)
    ensures r.Some? ==> line == r.value.0 + ": " + r.value.1
    ensures r.Some? ==> forall i | 0 <= i < |line| :: SepAt(line, i) <==> i == |r.value.0|
  {
    match FindSep(line, 0)
    case None => None
    case Some(i) =>
      if FindSep(line, i + 2).Some? then None
      else
        assert line == line[..i] + ": " + line[i + 2..];
        Some((line[..i], line[i + 2..]))
  }

  /** A line with exactly one ": " always splits. */
  lemma HeaderSplitOne(line: string, i: nat)
    requires SepAt(line, i) && forall j | 0 <= j < |line| :: SepAt(line, j) ==> j == i
    ensures HeaderSplit(line).Some? && HeaderSplit(line).value.0 == line[..i]
  {
    var f := FindSep(line, 0);
    assert f == Some(i);
    var g := FindSep(line, i + 2);
  }

  /** `HTTPRequest(path, method, host)`. */
  class HTTPRequest {
    var path: Option<string>
    var verb: Option<string>  // `method`
    var host: Option<string>
    var headers: seq<(string, string)>
    var body: Option<string>

    constructor (path: Option<string>, verb: Option<string>, host: Option<string>)
      ensures this.path == path && this.verb == verb && this.host == host
      ensures headers == [] && body == None
    {
      this.path, this.verb, this.host := path, verb, host;
      headers, body := [], None;
    }

    /** `add_header(key, value)`: appended after the earlier headers. */
    method AddHeader(key: string, value: string)
      modifies this
      ensures headers == old(headers) + [(key, value)]
      ensures path == old(path) && verb == old(verb) && host == old(host) && body == old(body)
    {
      headers := headers + [(key, value)];
    }

    /** The `body` setter: a body adds a `Content_length` header carrying its
        length (once per assignment); None adds nothing. */
    method SetBody(b: Option<string>)
      modifies this
      ensures body == b
      ensures b.Some? ==> headers == old(headers) + [("Content_length", IntToText(|b.value|))]
      ensures b.None? ==> headers == old(headers)
      ensures path == old(path) && verb == old(verb) && host == old(host)
    {
      if b.Some? {
        AddHeader("Content_length", IntToText(|b.value|));
      }
      body := b;
    }
  }

  /** `HTTPResponse()`; `iter` is None until the body chunks are set. */
  class HTTPResponse {
    var headers: seq<(string, string)>
    var status: string
    var iter: Option<seq<string>>

    constructor ()
      ensures headers == [] && status == "" && iter == None
    {
      headers, status, iter := [], "", None;
    }

    /** `status_code`: the number the second word of the status line spells;
        None where Python raises (IndexError without a second word,
        ValueError for one that is not a number). */
    function StatusCode(): (r: Option<int>)
      reads this
      ensures |Words(status)| < 2 ==> r.None?
      ensures |Words(status)| >= 2 ==> r == ParseInt(Words(status)[1])
    {
      StatusCodeOf(status)
    }

    /** `status_reason`: the third word of the status line, None (IndexError)
        with fewer words. */
    function StatusReason(): (r: Option<string>)
      reads this
      ensures r.Some? <==> |Words(status)| >= 3
      ensures r.Some? ==> r.value == Words(status)[2]
    {
      StatusReasonOf(status)
    }

    /** `get_header(key, default)`: the value of the first header whose name
        matches ignoring case, `default` when none does. */
    function GetHeader(key: string, default: Option<string>): (r: Option<string>)
      reads this
      ensures (forall j | 0 <= j < |headers| :: Lower(headers[j].0) != Lower(key)) ==> r == default
      ensures forall i | 0 <= i < |headers| && Lower(headers[i].0) == Lower(key) &&
        (forall j | 0 <= j < i :: Lower(headers[j].0) != Lower(key)) :: r == Some(headers[i].1)
    {
      HeaderValue(headers, key, default)
    }

    /** `add_header(key, value)`. */
    method AddHeader(key: string, value: string)
      modifies this
      ensures headers == old(headers) + [(key, value)] && status == old(status) && iter == old(iter)
    {
      headers := headers + [(key, value)];
    }

    /** `body`: the chunks joined; None while `iter` is None (a TypeError). */
    function Body(): (r: Option<string>)
      reads this
      ensures r.Some? <==> iter.Some?
      ensures r.Some? ==> r.value == Join(iter.value)
    {
      if iter.None? then None else Some(Join(iter.value))
    }
  }

  /** A header added to a list with no header of that name is what `get_header`
      finds for the name in any case; an earlier one of the same name shadows it. */
  lemma AddThenGet(headers: seq<(string, string)>, key: string, value: string, probe: string, default: Option<string>)
    requires Lower(probe) == Lower(key)
    ensures (forall j | 0 <= j < |headers| :: Lower(headers[j].0) != Lower(key)) ==>
      HeaderValue(headers + [(key, value)], probe, default) == Some(value)
    ensures HeaderValue(headers, probe, None).Some? ==>
      HeaderValue(headers + [(key, value)], probe, default) == HeaderValue(headers, probe, None)
  {
    var h := headers + [(key, value)];
    match FindHeaderFrom(headers, probe, 0)
    case None =>
      assert forall j | 0 <= j < |headers| :: h[j] == headers[j];
      assert h[|headers|] == (key, value);
    case Some(i) =>
      assert forall j | 0 <= j <= i :: h[j] == headers[j];
  }
}
