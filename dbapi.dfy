/** The DB-API wrapper over the low-level MySQL client: string escaping,
    argument substitution into the query text, the cursor's result fields and
    the connection's option handling. The low-level client's answer to a query
    is a parameter. */
module DbApi {
  import opened Common

  // ---------------------------------------------------------------------
  // Escaping

  /** The characters `_escape_string` writes as a backslash pair. */
  predicate Special(ch: char)
  {
    ch == 0 as char || ch == '\n' || ch == '\r' || ch == '\\' || ch == '\'' || ch == '"' || ch == 26 as char
  }

  /** The letter that follows the backslash for a special character. */
  function EscapeLetter(ch: char): char
    requires Special(ch)
  {
    if ch == 0 as char then '0'
    else if ch == '\n' then 'n'
    else if ch == '\r' then 'r'
    else if ch == 26 as char then 'Z'
    else ch
  }

  /** `_escape_string(s)`: each special character as backslash and letter,
      every other character as it is. */
  function EscapeString(s: string): (r: string)
    ensures |r| == |s| + CountSpecial(s)
  {
    if s == [] then [] else EscapeChar(s[0]) + EscapeString(s[1..])
  }

  function EscapeChar(ch: char): string
  {
    if Special(ch) then ['\\', EscapeLetter(ch)] else [ch]
  }

  function CountSpecial(s: string): nat
  {
    if s == [] then 0 else (if Special(s[0]) then 1 else 0) + CountSpecial(s[1..])
  }

  /** How the server reads a backslash pair inside a quoted literal. */
  function Unescaped(letter: char): char
  {
    if letter == '0' then 0 as char
    else if letter == 'n' then '\n'
    else if letter == 'r' then '\r'
    else if letter == 'Z' then 26 as char
    else letter
  }

  /** A quoted literal's body as the server reads it, up to the first quote
      that is not part of a backslash pair: the text it stands for and what
      follows the closing quote. None when the input ends first. */
  function ReadLiteral(t: string): Option<(string, string)>
    decreases |t|
  {
    if t == [] then None
    else if t[0] == '\'' then Some(([], t[1..]))
    else if t[0] == '\\' then
      if |t| < 2 then None
      else match ReadLiteral(t[2..])
        case None => None
        case Some((v, rest)) => Some(([Unescaped(t[1])] + v, rest))
    else match ReadLiteral(t[1..])
      case None => None
      case Some((v, rest)) => Some(([t[0]] + v, rest))
  }

  lemma ReadQuote(rest: string)
    ensures ReadLiteral("'" + rest) == Some(([], rest))
  {
    assert ("'" + rest)[1..] == rest;
  }

  lemma ReadPair(letter: char, t: string)
    ensures ReadLiteral(['\\', letter] + t) ==
      match ReadLiteral(t) case None => None case Some((v, rest)) => Some(([Unescaped(letter)] + v, rest))
  {
    assert (['\\', letter] + t)[2..] == t;
  }

  lemma ReadPlain(ch: char, t: string)
    requires ch != '\\' && ch != '\''
    ensures ReadLiteral([ch] + t) ==
      match ReadLiteral(t) case None => None case Some((v, rest)) => Some(([ch] + v, rest))
  {
    assert ([ch] + t)[1..] == t;
  }

  lemma EscapeSplit(s: string, rest: string)
    requires s != []
    ensures EscapeString(s) + "'" + rest == EscapeChar(s[0]) + (EscapeString(s[1..]) + "'" + rest)
  {
    var e, t := EscapeChar(s[0]), EscapeString(s[1..]);
    assert EscapeString(s) == e + t;
    assert (e + t) + "'" + rest == e + (t + "'" + rest);
  }

  /** One character further: what the escaped rest reads back as, the
      escaped whole reads back as with the first character in front. */
  lemma EscapeStep(s: string, rest: string)
    requires s != []
    requires ReadLiteral(EscapeString(s[1..]) + "'" + rest) == Some((s[1..], rest))
    ensures ReadLiteral(EscapeString(s) + "'" + rest) == Some((s, rest))
  {
    EscapeSplit(s, rest);
    var tail := EscapeString(s[1..]) + "'" + rest;
    assert EscapeString(s) + "'" + rest == EscapeChar(s[0]) + tail;
    EscapeCharRead(s[0], tail);
    assert [s[0]] + s[1..] == s;
  }

  /** One escaped character in front reads back as that character in front. */
  lemma EscapeCharRead(ch: char, tail: string)
    ensures ReadLiteral(EscapeChar(ch) + tail) ==
      match ReadLiteral(tail) case None => None case Some((v, rest)) => Some(([ch] + v, rest))
  {
    if Special(ch) {
      ReadPair(EscapeLetter(ch), tail);
      assert Unescaped(EscapeLetter(ch)) == ch;
    } else {
      ReadPlain(ch, tail);
    }
  }

  /** Whatever its bytes, an escaped argument between quotes is read back as
      one literal holding exactly those bytes; the text after it (the rest
      of the query) is untouched. This is what keeps `piet' OR 'a' = 'a` a
      single string. */
  lemma {:induction false} EscapeRoundTrip(s: string, rest: string)
    ensures ReadLiteral(EscapeString(s) + "'" + rest) == Some((s, rest))
    decreases |s|
  {
    if s == [] {
      assert EscapeString(s) + "'" + rest == "'" + rest;
      ReadQuote(rest);
    } else {
      EscapeRoundTrip(s[1..], rest);
      EscapeStep(s, rest);
    }
  }

  // ---------------------------------------------------------------------
  // Substituting the arguments

  /** An argument of `execute`; a datetime is given by its
      '%Y-%m-%d %H:%M:%S' text. */
  datatype Arg = Str(s: string) | Int(i: int) | Null | DateTime(stamp: string) | Unknown

  /** The text an argument stands for; None is the `assert False` for an
      unknown type. */
  function ArgText(a: Arg): (r: Option<string>)
    ensures r.None? <==> a.Unknown?
    ensures a.Str? ==> r == Some("'" + EscapeString(a.s) + "'")
  {
    match a
      case Str(s) => Some("'" + EscapeString(s) + "'")
      case Int(i) => Some(IntToText(i))
      case Null => Some("null")
      case DateTime(stamp) => Some("'" + stamp + "'")
      case Unknown => None
  }

  predicate PlaceholderAt(q: string, i: nat)
  {
    i + 1 < |q| && q[i] == '%' && q[i + 1] == 's'
  }

  /** The first "%s" at or after `i`. */
  function FindPlaceholder(q: string, i: nat): (r: Option<nat>)
    requires i <= |q|
    ensures r.Some? ==> i <= r.value && PlaceholderAt(q, r.value)
    decreases |q| - i
  {
    if i + 1 >= |q| then None
    else if PlaceholderAt(q, i) then Some(i)
    else FindPlaceholder(q, i + 1)
  }

  /** No "%s" comes before the one found, and none at all when none is found. */
  lemma {:induction false} FindPlaceholderFirst(q: string, i: nat)
    requires i <= |q|
    ensures FindPlaceholder(q, i).Some? ==> forall j | i <= j < FindPlaceholder(q, i).value :: !PlaceholderAt(q, j)
    ensures FindPlaceholder(q, i).None? ==> forall j | i <= j < |q| :: !PlaceholderAt(q, j)
    decreases |q| - i
  {
    if i + 1 < |q| && !PlaceholderAt(q, i) {
      FindPlaceholderFirst(q, i + 1);
    }
  }

  /** The "%s" at `k` is the one found from `i` when none lies between. */
  lemma {:induction false} FindPlaceholderAt(q: string, i: nat, k: nat)
    requires i <= k && PlaceholderAt(q, k)
    requires forall j | i <= j < k :: !PlaceholderAt(q, j)
    ensures FindPlaceholder(q, i) == Some(k)
    decreases k - i
  {
    if i < k {
      FindPlaceholderAt(q, i + 1, k);
    }
  }

  /** The query text so far, and whether every argument was substituted. */
  datatype Filled = Filled(query: string, ok: bool)

  /** The loop of `execute` as written: each argument replaces the first "%s"
      of the current text (`qry.replace('%s', text, 1)`), searching again
      from the start. */
  function Subst(q: string, args: seq<Arg>): (r: Filled)
    ensures r.ok <==> forall k | 0 <= k < |args| :: !args[k].Unknown?
    ensures FindPlaceholder(q, 0).None? ==> r.query == q
    decreases |args|
  {
    if args == [] then Filled(q, true)
    else match ArgText(args[0])
      case None => Filled(q, false)
      case Some(t) =>
        match FindPlaceholder(q, 0)
          case None => Subst(q, args[1..])
          case Some(i) => Subst(q[..i] + t + q[i + 2..], args[1..])
  }

  lemma SubstStep(q: string, args: seq<Arg>, i: nat, t: string)
    requires args != [] && ArgText(args[0]) == Some(t) && FindPlaceholder(q, 0) == Some(i)
    ensures Subst(q, args) == Subst(q[..i] + t + q[i + 2..], args[1..])
  {
  }

  lemma EscapePercent()
    ensures EscapeString("%s") == "%s"
  {
    assert EscapeString("s") == "s" by { assert "s"[1..] == []; }
    assert "%s"[1..] == "s";
  }

  lemma ArgPercent()
    ensures ArgText(Str("%s")) == Some("'%s'")
  {
    EscapePercent();
    assert "'" + "%s" + "'" == "'%s'";
  }

  /** As written, a "%s" inside a string argument is itself replaced by the
      next argument, and the query's own second "%s" is never filled. */
  lemma RescanCounterexample()
    ensures Subst("%s,%s", [Str("%s"), Int(1)]) == Filled("'1',%s", true)
  {
    RescanFirst();
    RescanSecond();
  }

  /** The first argument replaces the query's first "%s". */
  lemma RescanFirst()
    ensures Subst("%s,%s", [Str("%s"), Int(1)]) == Subst("'%s',%s", [Int(1)])
  {
    var q0, q1 := "%s,%s", "'%s',%s";
    assert FindPlaceholder(q0, 0) == Some(0);
    assert q0[..0] + "'%s'" + q0[2..] == q1;
    ArgPercent();
    SubstStep(q0, [Str("%s"), Int(1)], 0, "'%s'");
    assert [Str("%s"), Int(1)][1..] == [Int(1)];
  }

  /** The second argument replaces the "%s" the first one brought in. */
  lemma RescanSecond()
    ensures Subst("'%s',%s", [Int(1)]) == Filled("'1',%s", true)
  {
    assert IntToText(1) == "1";
    var q1, q2 := "'%s',%s", "'1',%s";
    assert FindPlaceholder(q1, 0) == Some(1) by {
      assert !PlaceholderAt(q1, 0) && PlaceholderAt(q1, 1);
    }
    assert q1[..1] + "1" + q1[3..] == q2;
    SubstStep(q1, [Int(1)], 1, "1");
    assert [Int(1)][1..] == [];
  }

  /** The substitution as evidently intended: `done` is the text already
      settled, `todo` the query text not yet searched; each argument's text
      joins `done`, so it is never searched for "%s" again. */
  function SubstRest(done: string, todo: string, args: seq<Arg>): (r: Filled)
    ensures r.ok <==> forall k | 0 <= k < |args| :: !args[k].Unknown?
    ensures FindPlaceholder(todo, 0).None? ==> r.query == done + todo
    decreases |args|
  {
    if args == [] then Filled(done + todo, true)
    else match ArgText(args[0])
      case None => Filled(done + todo, false)
      case Some(t) =>
        match FindPlaceholder(todo, 0)
          case None => SubstRest(done, todo, args[1..])
          case Some(i) => SubstRest(done + todo[..i] + t, todo[i + 2..], args[1..])
  }

  lemma SubstRestStep(done: string, todo: string, args: seq<Arg>, i: nat, t: string)
    requires args != [] && ArgText(args[0]) == Some(t) && FindPlaceholder(todo, 0) == Some(i)
    ensures SubstRest(done, todo, args) == SubstRest(done + todo[..i] + t, todo[i + 2..], args[1..])
  {
  }

  /** The corrected substitution on the same input fills both of the
      query's own placeholders. */
  lemma NoRescan()
    ensures SubstRest([], "%s,%s", [Str("%s"), Int(1)]) == Filled("'%s',1", true)
  {
    NoRescanFirst();
    NoRescanSecond();
  }

  /** The first argument settles in place of the query's first "%s". */
  lemma NoRescanFirst()
    ensures SubstRest([], "%s,%s", [Str("%s"), Int(1)]) == SubstRest("'%s'", ",%s", [Int(1)])
  {
    var q0, q1 := "%s,%s", ",%s";
    assert FindPlaceholder(q0, 0) == Some(0);
    assert q0[..0] == [] && q0[2..] == q1;
    ArgPercent();
    SubstRestStep([], q0, [Str("%s"), Int(1)], 0, "'%s'");
    assert [] + [] + "'%s'" == "'%s'";
    assert [Str("%s"), Int(1)][1..] == [Int(1)];
  }

  /** The second argument fills the query's own second "%s". */
  lemma NoRescanSecond()
    ensures SubstRest("'%s'", ",%s", [Int(1)]) == Filled("'%s',1", true)
  {
    assert IntToText(1) == "1";
    var q1 := ",%s";
    assert FindPlaceholder(q1, 0) == Some(1) by {
      assert !PlaceholderAt(q1, 0) && PlaceholderAt(q1, 1);
    }
    assert q1[..1] == "," && q1[3..] == [];
    SubstRestStep("'%s'", q1, [Int(1)], 1, "1");
    assert "'%s'" + "," + "1" + [] == "'%s',1";
    assert [Int(1)][1..] == [];
  }

  /** Pieces of query text with the texts put between them. */
  function Weave(segments: seq<string>, texts: seq<string>): string
    requires |segments| == |texts| + 1
    decreases |texts|
  {
    if texts == [] then segments[0] else segments[0] + texts[0] + Weave(segments[1..], texts[1..])
  }

  function Texts(args: seq<Arg>): seq<string>
    requires forall i | 0 <= i < |args| :: !args[i].Unknown?
    ensures |Texts(args)| == |args|
  {
    if args == [] then [] else [ArgText(args[0]).value] + Texts(args[1..])
  }

  function Placeholders(n: nat): (r: seq<string>)
    ensures |r| == n
  {
    seq(n, _ => "%s")
  }

  predicate NoPlaceholder(s: string)
  {
    forall j | 0 <= j < |s| :: !PlaceholderAt(s, j)
  }

  /** The first "%s" after a piece without one is the one right after it: a
      piece's last '%' and the "%s" spell "%%", not "%s". */
  lemma FindAfterSegment(seg: string, rest: string)
    requires NoPlaceholder(seg)
    ensures FindPlaceholder(seg + "%s" + rest, 0) == Some(|seg|)
  {
    var q := seg + "%s" + rest;
    var k := |seg|;
    assert PlaceholderAt(q, k);
    forall j | 0 <= j < k ensures !PlaceholderAt(q, j) {
      assert q[j] == seg[j];
      if j + 1 < k {
        assert q[j + 1] == seg[j + 1];
        assert !PlaceholderAt(seg, j);
      } else {
        assert q[j + 1] == '%';
      }
    }
    FindPlaceholderAt(q, 0, k);
  }

  lemma WeaveCons(segments: seq<string>, texts: seq<string>)
    requires |segments| == |texts| + 1 && texts != []
    ensures Weave(segments, texts) == segments[0] + texts[0] + Weave(segments[1..], texts[1..])
  {
  }

  lemma TailsKnown(args: seq<Arg>)
    requires args != [] && forall i | 0 <= i < |args| :: !args[i].Unknown?
    ensures forall k | 0 <= k < |args| - 1 :: !args[1..][k].Unknown?
    ensures Texts(args) == [ArgText(args[0]).value] + Texts(args[1..])
  {
    forall k | 0 <= k < |args| - 1 ensures !args[1..][k].Unknown? { assert args[1..][k] == args[k + 1]; }
  }

  lemma TailsPlain(segments: seq<string>)
    requires segments != [] && forall i | 0 <= i < |segments| :: NoPlaceholder(segments[i])
    ensures forall k | 0 <= k < |segments| - 1 :: NoPlaceholder(segments[1..][k])
  {
    forall k | 0 <= k < |segments| - 1 ensures NoPlaceholder(segments[1..][k]) { assert segments[1..][k] == segments[k + 1]; }
  }

  /** One placeholder further: the piece before it and the argument's text
      join the settled text. */
  lemma SubstPlaceStep(done: string, seg: string, more: string, args: seq<Arg>, t: string)
    requires NoPlaceholder(seg) && args != [] && ArgText(args[0]) == Some(t)
    ensures SubstRest(done, seg + "%s" + more, args) == SubstRest(done + seg + t, more, args[1..])
  {
    var q := seg + "%s" + more;
    FindAfterSegment(seg, more);
    SubstRestStep(done, q, args, |seg|, t);
    assert q[..|seg|] == seg && q[|seg| + 2..] == more;
  }

  /** With the corrected substitution, a query made of pieces without "%s"
      joined by one "%s" per argument becomes those pieces with the argument
      texts in order, whatever the texts contain. */
  lemma {:induction false} SubstPlaces(done: string, segments: seq<string>, args: seq<Arg>)
    requires |segments| == |args| + 1
    requires forall i | 0 <= i < |args| :: !args[i].Unknown?
    requires forall i | 0 <= i < |segments| :: NoPlaceholder(segments[i])
    ensures SubstRest(done, Weave(segments, Placeholders(|args|)), args) ==
      Filled(done + Weave(segments, Texts(args)), true)
    decreases |args|
  {
    if args == [] {
      assert Weave(segments, Placeholders(0)) == segments[0] == Weave(segments, Texts(args));
    } else {
      var t := ArgText(args[0]).value;
      var holes := Placeholders(|args|);
      assert holes[0] == "%s" && holes[1..] == Placeholders(|args| - 1);
      var more := Weave(segments[1..], holes[1..]);
      WeaveCons(segments, holes);
      SubstPlaceStep(done, segments[0], more, args, t);
      TailsKnown(args);
      TailsPlain(segments);
      SubstPlaces(done + segments[0] + t, segments[1..], args[1..]);
      WeaveCons(segments, Texts(args));
      var later := Weave(segments[1..], Texts(args[1..]));
      assert (done + segments[0] + t) + later == done + (segments[0] + t + later);
    }
  }

  /** The loop of `execute` over the arguments as written: each argument's
      text replaces the first "%s" of the query text as rewritten so far. */
  method Substitute(qry: string, args: seq<Arg>) returns (r: Filled)
    ensures r == Subst(qry, args)
  {
    var q := qry;
    var k := 0;
    while k < |args|
      invariant 0 <= k <= |args|
      invariant Subst(q, args[k..]) == Subst(qry, args)
    {
      assert args[k..][1..] == args[k + 1..];
      var text := ArgText(args[k]);
      if text.None? {
        return Filled(q, false);
      }
      var i := FindPlaceholder(q, 0);
      if i.Some? {
        q := q[..i.value] + text.value + q[i.value + 2..];
      }
      k := k + 1;
    }
    assert args[k..] == [];
    return Filled(q, true);
  }

  /** The corrected loop: the search goes on after the text just put in. */
  method SubstituteCorrected(qry: string, args: seq<Arg>) returns (r: Filled)
    ensures r == SubstRest([], qry, args)
  {
    var done, todo := [], qry;
    var k := 0;
    while k < |args|
      invariant 0 <= k <= |args|
      invariant SubstRest(done, todo, args[k..]) == SubstRest([], qry, args)
    {
      assert args[k..][1..] == args[k + 1..];
      var text := ArgText(args[k]);
      if text.None? {
        return Filled(done + todo, false);
      }
      var i := FindPlaceholder(todo, 0);
      if i.Some? {
        done, todo := done + todo[..i.value] + text.value, todo[i.value + 2..];
      }
      k := k + 1;
    }
    assert args[k..] == [];
    return Filled(done + todo, true);
  }

  /** An argument whose text cannot bring in a "%s": no '%' in a string or a
      datetime (an int or null never holds one). */
  predicate PercentFree(a: Arg)
  {
    match a
      case Str(s) => '%' !in s
      case DateTime(stamp) => '%' !in stamp
      case _ => true
  }

  /** A text that neither holds a '%' nor begins with 's', so no "%s" can
      start inside it or at the character before it. */
  predicate Inert(t: string)
  {
    t != [] && t[0] != 's' && '%' !in t
  }

  lemma {:induction false} EscapeKeepsPercentOut(s: string)
    requires '%' !in s
    ensures '%' !in EscapeString(s)
    decreases |s|
  {
    if s != [] {
      assert s[0] != '%' && '%' !in s[1..];
      EscapeKeepsPercentOut(s[1..]);
      assert EscapeString(s) == EscapeChar(s[0]) + EscapeString(s[1..]);
    }
  }

  lemma ArgInert(a: Arg)
    requires PercentFree(a) && !a.Unknown?
    ensures Inert(ArgText(a).value)
  {
    match a
      case Str(s) =>
        EscapeKeepsPercentOut(s);
      case Int(i) =>
        IntTextFree(i, '%');
        IntTextFree(i, 's');
        assert IntToText(i)[0] in IntToText(i);
      case Null =>
      case DateTime(stamp) =>
  }

  /** No "%s" starts inside `done` in the text `done + todo`. */
  predicate Settled(done: string, todo: string)
  {
    forall j | 0 <= j < |done| :: !PlaceholderAt(done + todo, j)
  }

  /** Past `done`, the placeholders of `done + todo` are those of `todo`. */
  lemma PlaceholderPast(done: string, todo: string, j: nat)
    requires |done| <= j
    ensures PlaceholderAt(done + todo, j) == PlaceholderAt(todo, j - |done|)
  {
  }

  /** With no "%s" starting inside `done`, the first "%s" of `done + todo` is
      the first one of `todo`, shifted. */
  lemma FindShift(done: string, todo: string)
    requires Settled(done, todo)
    ensures FindPlaceholder(done + todo, 0) ==
      match FindPlaceholder(todo, 0) case None => None case Some(i) => Some(|done| + i)
  {
    var q := done + todo;
    FindPlaceholderFirst(todo, 0);
    match FindPlaceholder(todo, 0)
      case None =>
        forall j | 0 <= j < |q| ensures !PlaceholderAt(q, j) {
          if j >= |done| { PlaceholderPast(done, todo, j); }
        }
        FindPlaceholderFirst(q, 0);
      case Some(i) =>
        PlaceholderPast(done, todo, |done| + i);
        forall j | 0 <= j < |done| + i ensures !PlaceholderAt(q, j) {
          if j >= |done| { PlaceholderPast(done, todo, j); }
        }
        FindPlaceholderAt(q, 0, |done| + i);
  }

  /** After one replacement, no "%s" starts inside the settled text: not in
      the piece before the placeholder (the first "%s" was at its end), not at
      its last character (an inert text does not begin with 's') and not in
      the inert text. */
  lemma SettledStays(done: string, todo: string, i: nat, t: string)
    requires Settled(done, todo)
    requires FindPlaceholder(todo, 0) == Some(i) && Inert(t)
    ensures Settled(done + todo[..i] + t, todo[i + 2..])
  {
    FindPlaceholderFirst(todo, 0);
    var q, d, rest := done + todo, done + todo[..i] + t, todo[i + 2..];
    var q' := d + rest;
    var p := |done| + i;
    assert |d| == p + |t|;
    forall j | 0 <= j < |d| ensures !PlaceholderAt(q', j) {
      if j + 1 < p {
        assert q'[j] == q[j] && q'[j + 1] == q[j + 1];
        if j >= |done| {
          PlaceholderPast(done, todo, j);
          assert !PlaceholderAt(todo, j - |done|);
        } else {
          assert !PlaceholderAt(q, j);
        }
        assert !PlaceholderAt(q', j);
      } else if j + 1 == p {
        assert q'[j + 1] == t[0];
        assert !PlaceholderAt(q', j);
      } else {
        assert q'[j] == t[j - p];
        assert t[j - p] in t;
        assert !PlaceholderAt(q', j);
      }
    }
  }

  /** One step of the loop as written, read on `done + todo`. */
  lemma AgreeStep(done: string, todo: string, args: seq<Arg>, i: nat, t: string)
    requires Settled(done, todo)
    requires args != [] && ArgText(args[0]) == Some(t) && FindPlaceholder(todo, 0) == Some(i)
    ensures Subst(done + todo, args) == Subst(done + todo[..i] + t + todo[i + 2..], args[1..])
  {
    var q, p := done + todo, |done| + i;
    FindShift(done, todo);
    assert FindPlaceholder(q, 0) == Some(p);
    SubstStep(q, args, p, t);
    assert q[..p] == done + todo[..i];
    assert q[p + 2..] == todo[i + 2..];
  }

  lemma {:induction false} SubstAgree(done: string, todo: string, args: seq<Arg>)
    requires Settled(done, todo)
    requires forall k | 0 <= k < |args| :: PercentFree(args[k])
    ensures Subst(done + todo, args) == SubstRest(done, todo, args)
    decreases |args|
  {
    if args != [] && !args[0].Unknown? {
      var t := ArgText(args[0]).value;
      assert forall k | 0 <= k < |args| - 1 :: args[1..][k] == args[k + 1];
      FindShift(done, todo);
      match FindPlaceholder(todo, 0)
        case None =>
          SubstAgree(done, todo, args[1..]);
        case Some(i) =>
          ArgInert(args[0]);
          SettledStays(done, todo, i, t);
          AgreeStep(done, todo, args, i, t);
          SubstAgree(done + todo[..i] + t, todo[i + 2..], args[1..]);
    }
  }

  /** The substitution as written and the corrected one agree whenever no
      string or datetime argument holds a '%': the rescan only goes wrong for
      an argument that brings in a "%s". Together with SubstPlaces, the
      source's `execute` puts such arguments into the query's own
      placeholders in order. */
  lemma AsWrittenAgrees(q: string, args: seq<Arg>)
    requires forall k | 0 <= k < |args| :: PercentFree(args[k])
    ensures Subst(q, args) == SubstRest([], q, args)
  {
    assert [] + q == q;
    SubstAgree([], q, args);
  }

  // ---------------------------------------------------------------------
  // The cursor

  /** The exceptions of the wrapper, with their messages. */
  datatype DbError = ProgrammingError(message: string) | Error(message: string) | TimeoutError(message: string)

  /** A row of a result set, its values as text. */
  type Row = seq<string>

  /** What the low-level client answers to a query: a result set (its fields
      as (name, type code) and its rows), a (rowcount, lastrowid) pair, or an
      exception (a timeout or another error). */
  datatype Reply = ResultSet(fields: seq<(string, int)>, rows: seq<Row>)
                 | Affected(rowcount: int, lastrowid: int)
                 | Raised(timeout: bool, detail: string)

  const EXECUTE_ERROR := "an error occurred while executing qry "
  const FETCH_ERROR := "an error occurred while fetching results"

  /** `_wrap_exception(e, msg)`: a TimeoutError for a timeout, else an Error. */
  function Wrap(timeout: bool, msg: string, detail: string): (r: DbError)
    ensures r.message == msg + ": " + detail
    ensures r.TimeoutError? <==> timeout
    ensures !r.ProgrammingError?
  {
    if timeout then TimeoutError(msg + ": " + detail) else Error(msg + ": " + detail)
  }

  /** The state `_close_result` leaves behind, and the other fields. */
  datatype CursorState = CursorState(closed: bool, description: Option<seq<(string, int)>>,
                                     rows: Option<seq<Row>>, lastrowid: Option<int>, rowcount: int)

  class Cursor {
    var closed: bool
    /** `description`: the (name, type code) of each column of the result. */
    var description: Option<seq<(string, int)>>
    /** `result_iter`: the rows not yet fetched; None with no result set. */
    var rows: Option<seq<Row>>
    var lastrowid: Option<int>
    var rowcount: int
    /** The queries handed to the low-level client, in order. */
    var sent: seq<string>

    function State(): CursorState
      reads this
    {
      CursorState(closed, description, rows, lastrowid, rowcount)
    }

    /** `Cursor(connection)`: open, with no result. */
    constructor ()
      ensures State() == CursorState(false, None, None, None, -1) && sent == []
    {
      closed, description, rows, lastrowid, rowcount := false, None, None, None, -1;
      sent := [];
    }

    /** `execute(qry, args)`: ProgrammingError on a closed cursor; otherwise the
        previous result is closed, the arguments are substituted as the source
        does it (Subst, each replacing the first "%s" of the rewritten text)
        and the query is handed to the client, whose reply fills the result
        fields. */
    method Execute(qry: string, args: seq<Arg>, reply: Reply) returns (error: Option<DbError>)
      modifies this
      ensures old(closed) ==> (error == Some(ProgrammingError("this cursor is already closed")) &&
        State() == old(State()) && sent == old(sent))
      ensures !old(closed) ==> (
        var f := Subst(qry, args);
        var reset := CursorState(false, None, None, None, -1);
        if !f.ok then
          (error == Some(Error(EXECUTE_ERROR + f.query + ": unknown argument type")) &&
           State() == reset && sent == old(sent))
        else
          sent == old(sent) + [f.query] &&
          match reply
            case ResultSet(fields, rs) => error.None? && State() == reset.(description := Some(fields), rows := Some(rs))
            case Affected(n, id) => error.None? && State() == reset.(rowcount := n, lastrowid := Some(id))
            case Raised(timeout, detail) =>
              error == Some(Wrap(timeout, EXECUTE_ERROR + f.query, detail)) && State() == reset)
    {
      if closed {
        return Some(ProgrammingError("this cursor is already closed"));
      }
      description, rows, lastrowid, rowcount := None, None, None, -1;
      var f := Substitute(qry, args);
      if !f.ok {
        return Some(Error(EXECUTE_ERROR + f.query + ": unknown argument type"));
      }
      sent := sent + [f.query];
      match reply {
        case ResultSet(fields, rs) =>
          description, rows := Some(fields), Some(rs);
          error := None;
        case Affected(n, id) =>
          rowcount, lastrowid := n, Some(id);
          error := None;
        case Raised(timeout, detail) =>
          error := Some(Wrap(timeout, EXECUTE_ERROR + f.query, detail));
      }
    }

    /** `fetchone()`: the next row, None past the last; an Error with no
        result set (`result_iter` is None). */
    method FetchOne() returns (row: Option<Row>, error: Option<DbError>)
      modifies this
      ensures old(rows).None? ==> error == Some(Error(FETCH_ERROR)) && row.None? && State() == old(State())
      ensures old(rows).Some? ==> (error.None? && description == old(description) && closed == old(closed) &&
        lastrowid == old(lastrowid) && rowcount == old(rowcount))
      ensures old(rows).Some? && old(rows).value == [] ==> row.None? && rows == old(rows)
      ensures old(rows).Some? && old(rows).value != [] ==>
        row == Some(old(rows).value[0]) && rows == Some(old(rows).value[1..])
      ensures sent == old(sent)
    {
      if rows.None? {
        return None, Some(Error(FETCH_ERROR));
      }
      var rs := rows.value;
      if rs == [] {
        return None, None;
      }
      row, error := Some(rs[0]), None;
      rows := Some(rs[1..]);
    }

    /** `fetchall()`: the rows not yet fetched. */
    method FetchAll() returns (all: seq<Row>, error: Option<DbError>)
      modifies this
      ensures old(rows).None? ==> error == Some(Error(FETCH_ERROR)) && all == [] && State() == old(State())
      ensures old(rows).Some? ==> (error.None? && all == old(rows).value &&
        State() == old(State()).(rows := Some([])))
      ensures sent == old(sent)
    {
      if rows.None? {
        return [], Some(Error(FETCH_ERROR));
      }
      all, error := rows.value, None;
      rows := Some([]);
    }

    /** `close()`: ProgrammingError the second time. */
    method Close() returns (error: Option<DbError>)
      modifies this
      ensures old(closed) ==> error == Some(ProgrammingError("cannot cursor twice")) && State() == old(State())
      ensures !old(closed) ==> error.None? && State() == CursorState(true, None, None, None, -1)
      ensures sent == old(sent)
    {
      if closed {
        return Some(ProgrammingError("cannot cursor twice"));
      }
      description, rows, lastrowid, rowcount := None, None, None, -1;
      closed := true;
      error := None;
    }
  }

  // ---------------------------------------------------------------------
  // The connection

  /** A keyword argument's value. */
  datatype Kw = Bool(b: bool) | Number(n: int) | Text(s: string)

  /** `== True` in Python: True itself or the integer 1. */
  predicate IsTrue(v: Kw)
  {
    v == Bool(true) || v == Number(1)
  }

  /** What `Connection.__init__` keeps of the keyword arguments for the
      client, and the charset it remembers. */
  datatype Options = Options(kwargs: map<string, Kw>, charset: Kw)

  /** autocommit defaults to False; with a charset given, the charset goes to
      the client only with use_unicode true and use_unicode is dropped;
      without one, every argument goes to the client as it is. */
  function ClientOptions(kwargs: map<string, Kw>, defaultCharset: string): (r: Options)
    ensures "autocommit" in r.kwargs
    ensures "autocommit" !in kwargs ==> r.kwargs["autocommit"] == Bool(false)
    ensures "use_unicode" in r.kwargs <==> "use_unicode" in kwargs && "charset" !in kwargs
    ensures "charset" !in kwargs ==>
      r.kwargs == (if "autocommit" in kwargs then kwargs else kwargs["autocommit" := Bool(false)])
    ensures "charset" in r.kwargs <==> "charset" in kwargs && "use_unicode" in kwargs && IsTrue(kwargs["use_unicode"])
    ensures r.charset == if "charset" in kwargs then kwargs["charset"] else Text(defaultCharset)
    ensures forall k | k in kwargs && k != "charset" && k != "use_unicode" :: k in r.kwargs && r.kwargs[k] == kwargs[k]
    ensures forall k | k in r.kwargs :: k in kwargs || k == "autocommit"
  {
    var a := if "autocommit" in kwargs then kwargs else kwargs["autocommit" := Bool(false)];
    if "charset" in a then
      var keep := "use_unicode" in a && IsTrue(a["use_unicode"]);
      var b := if keep then a else a - {"charset"};
      Options(b - {"use_unicode"}, a["charset"])
    else Options(a, Text(defaultCharset))
  }

  class Connection {
    var closed: bool
    const options: Options

    /** `Connection(**kwargs)`: the options for the client; the client's
        connect is not part of this model. */
    constructor (kwargs: map<string, Kw>, defaultCharset: string)
      ensures !closed && options == ClientOptions(kwargs, defaultCharset)
    {
      closed := false;
      options := ClientOptions(kwargs, defaultCharset);
    }

    /** `close()`: ProgrammingError the second time. */
    method Close() returns (error: Option<DbError>)
      modifies this
      ensures old(closed) ==> error == Some(ProgrammingError("cannot close connection twice")) && closed
      ensures !old(closed) ==> error.None? && closed
    {
      if closed {
        return Some(ProgrammingError("cannot close connection twice"));
      }
      closed := true;
      error := None;
    }

    /** `cursor()`: a new open cursor, or ProgrammingError once closed. */
    method NewCursor() returns (error: Option<DbError>, cursor: Cursor?)
      ensures closed ==> error == Some(ProgrammingError("this connection is already closed")) && cursor == null
      ensures !closed ==> (error.None? && cursor != null && fresh(cursor) &&
        cursor.State() == CursorState(false, None, None, None, -1))
    {
      if closed {
        return Some(ProgrammingError("this connection is already closed")), null;
      }
      error := None;
      cursor := new Cursor();
    }
  }
}
