/** Shared vocabulary: optional values, and the text and byte helpers that
    several modules of the framework rely on. A Python 2 `str` is a byte
    string; it is modelled as a Dafny `string` holding one char per byte. */
module Common {

  datatype Option<T> = None | Some(value: T)

  /** A value or the name of the exception the source raises instead. */
  datatype Result<T> = Ok(value: T) | Err(error: string)

  type byte = b: int | 0 <= b < 256

  // ---------------------------------------------------------------------
  // Sequences

  /** The concatenation of a list of strings, as Python's `''.join(l)`. */
  function Join(parts: seq<string>): (r: string)
  {
    if parts == [] then [] else parts[0] + Join(parts[1..])
  }

  lemma {:induction false} JoinAppend(a: seq<string>, b: seq<string>)
    ensures Join(a + b) == Join(a) + Join(b)
  {
    if a == [] {
      assert a + b == b;
    } else {
      assert (a + b)[1..] == a[1..] + b;
      JoinAppend(a[1..], b);
    }
  }

  /** No element occurs twice. */
  ghost predicate Distinct<T>(s: seq<T>)
  {
    forall i, j | 0 <= i < j < |s| :: s[i] != s[j]
  }

  /** `deque.remove(x)`: the first occurrence of `x` is taken out; every other
      element stays, and nothing changes when `x` is absent. */
  function RemoveFirst<T(==)>(s: seq<T>, x: T): (r: seq<T>)
    ensures |r| == (if x in s then |s| - 1 else |s|)
    ensures x !in s ==> r == s
  {
    if s == [] then []
    else if s[0] == x then s[1..]
    else (assert s == [s[0]] + s[1..]; [s[0]] + RemoveFirst(s[1..], x))
  }

  /** What stays after `deque.remove`: only elements of `s`, all but `x`. */
  lemma {:induction false} RemoveFirstMembers<T>(s: seq<T>, x: T)
    ensures forall y | y in RemoveFirst(s, x) :: y in s
    ensures forall y | y in s && y != x :: y in RemoveFirst(s, x)
    decreases |s|
  {
    if s != [] && s[0] != x {
      RemoveFirstMembers(s[1..], x);
    }
  }

  lemma DistinctTail<T>(s: seq<T>)
    requires s != [] && Distinct(s)
    ensures Distinct(s[1..]) && s[0] !in s[1..]
  {
    forall j | 0 <= j < |s[1..]| ensures s[1..][j] != s[0] { assert s[1..][j] == s[j + 1]; }
  }

  /** A distinct sequence stays distinct when one element is removed, and that
      element is then gone. */
  lemma {:induction false} RemoveDistinct<T>(s: seq<T>, x: T)
    requires Distinct(s)
    ensures Distinct(RemoveFirst(s, x)) && x !in RemoveFirst(s, x)
    decreases |s|
  {
    if s != [] {
      DistinctTail(s);
      if s[0] != x {
        RemoveDistinct(s[1..], x);
        RemoveFirstMembers(s[1..], x);
        var r := RemoveFirst(s[1..], x);
        forall i, j | 0 <= i < j < |[s[0]] + r| ensures ([s[0]] + r)[i] != ([s[0]] + r)[j] {
          if i == 0 { assert ([s[0]] + r)[j] == r[j - 1] && r[j - 1] in r; }
          else { assert ([s[0]] + r)[i] == r[i - 1] && ([s[0]] + r)[j] == r[j - 1]; }
        }
      }
    }
  }

  /** A new element appended keeps a sequence distinct. */
  lemma DistinctSnoc<T>(s: seq<T>, x: T)
    requires Distinct(s) && x !in s
    ensures Distinct(s + [x])
  {
    forall i, j | 0 <= i < j < |s + [x]| ensures (s + [x])[i] != (s + [x])[j] {
      if j == |s| { assert (s + [x])[i] == s[i]; }
      else { assert (s + [x])[i] == s[i] && (s + [x])[j] == s[j]; }
    }
  }

  /** Every string in a list has at most `n` chars. */
  predicate AllAtMost(parts: seq<string>, n: nat)
  {
    forall i | 0 <= i < |parts| :: |parts[i]| <= n
  }

  predicate StartsWith(s: string, prefix: string)
  {
    |prefix| <= |s| && s[..|prefix|] == prefix
  }

  /** Index of the first occurrence of `c`, as Python's `s.find(c)`; None for -1. */
  function FindChar(s: string, c: char): (r: Option<nat>)
    ensures r.Some? ==> r.value < |s| && s[r.value] == c
    ensures r.Some? ==> forall j | 0 <= j < r.value :: s[j] != c
    ensures r.None? ==> forall j | 0 <= j < |s| :: s[j] != c
  {
    FindFrom(s, c, 0)
  }

  /** Index of the first occurrence of `c` at or after `i`. */
  function FindFrom(s: string, c: char, i: nat): (r: Option<nat>)
    requires i <= |s|
    ensures r.Some? ==> i <= r.value < |s| && s[r.value] == c
    ensures r.Some? ==> forall j | i <= j < r.value :: s[j] != c
    ensures r.None? ==> forall j | i <= j < |s| :: s[j] != c
    decreases |s| - i
  {
    if i == |s| then None
    else if s[i] == c then Some(i)
    else FindFrom(s, c, i + 1)
  }

  /** Python's `s.split(c)` for a single separator char: the pieces between separators. */
  function Split(s: string, c: char): (r: seq<string>)
    ensures |r| >= 1
    ensures forall i | 0 <= i < |r| :: c !in r[i]
    decreases |s|
  {
    match FindChar(s, c)
      case None => [s]
      case Some(i) => [s[..i]] + Split(s[i + 1..], c)
  }
  /** Two pieces joined by one separator split back into those pieces. */
  lemma SplitPair(a: string, b: string, c: char)
    requires c !in a && c !in b
    ensures Split(a + [c] + b, c) == [a, b]
  {
    var s := a + [c] + b;
    assert s[|a|] == c;
    assert forall j | 0 <= j < |a| :: s[j] == a[j];
    assert FindChar(s, c) == Some(|a|);
    assert s[..|a|] == a && s[|a| + 1..] == b;
    assert FindChar(b, c).None?;
  }


  /** Joining the pieces of a split with the separator gives back the string. */
  function JoinWith(parts: seq<string>, c: char): string
  {
    if |parts| <= 1 then (if parts == [] then [] else parts[0])
    else parts[0] + [c] + JoinWith(parts[1..], c)
  }

  lemma {:induction false} SplitJoin(s: string, c: char)
    ensures JoinWith(Split(s, c), c) == s
    decreases |s|
  {
    match FindChar(s, c)
      case None =>
      case Some(i) =>
        SplitJoin(s[i + 1..], c);
        assert s == s[..i] + [c] + s[i + 1..];
  }

  /** A first piece free of the separator is split off at the separator. */
  lemma SplitHead(a: string, b: string, c: char)
    requires c !in a
    ensures Split(a + [c] + b, c) == [a] + Split(b, c)
  {
    var s := a + [c] + b;
    assert s[|a|] == c;
    assert forall j | 0 <= j < |a| :: s[j] == a[j];
    assert FindChar(s, c) == Some(|a|);
    assert s[..|a|] == a && s[|a| + 1..] == b;
  }

  /** Pieces free of the separator, joined with it, split back into the pieces. */
  lemma {:induction false} SplitJoinWith(parts: seq<string>, c: char)
    requires parts != []
    requires forall i | 0 <= i < |parts| :: c !in parts[i]
    ensures Split(JoinWith(parts, c), c) == parts
    decreases |parts|
  {
    if |parts| > 1 {
      SplitHead(parts[0], JoinWith(parts[1..], c), c);
      SplitJoinWith(parts[1..], c);
    } else {
      SplitNoSeparator(parts[0], c);
    }
  }

  lemma SplitNoSeparator(s: string, c: char)
    requires c !in s
    ensures Split(s, c) == [s]
  {
    assert FindChar(s, c).None?;
  }

  /** A char other than the separator that no piece holds is not in the join. */
  lemma {:induction false} JoinWithFree(parts: seq<string>, c: char, d: char)
    requires d != c
    requires forall i | 0 <= i < |parts| :: d !in parts[i]
    ensures d !in JoinWith(parts, c)
    decreases |parts|
  {
    if |parts| > 1 {
      assert forall i | 0 <= i < |parts[1..]| :: d !in parts[1..][i] by {
        forall i | 0 <= i < |parts[1..]| ensures d !in parts[1..][i] {
          assert parts[1..][i] == parts[i + 1];
        }
      }
      JoinWithFree(parts[1..], c, d);
      assert d !in parts[0];
    }
  }

  /** Appending a part to a join appends the separator and the part. */
  lemma {:induction false} JoinWithSnoc(parts: seq<string>, v: string, c: char)
    requires parts != []
    ensures JoinWith(parts + [v], c) == JoinWith(parts, c) + [c] + v
    decreases |parts|
  {
    if |parts| == 1 {
      assert parts + [v] == [parts[0], v];
      assert [parts[0], v][1..] == [v];
    } else {
      assert (parts + [v])[1..] == parts[1..] + [v];
      JoinWithSnoc(parts[1..], v, c);
    }
  }

  /** Python whitespace (the bytes `str.strip()` and `str.split()` treat as blank). */
  predicate IsSpace(ch: char)
  {
    ch == ' ' || ch == '\t' || ch == '\n' || ch == '\r' || ch as int == 11 || ch as int == 12
  }

  function StripLeft(s: string): (r: string)
    ensures |r| <= |s| && r == s[|s| - |r|..]
    ensures r == [] || !IsSpace(r[0])
  {
    if s != [] && IsSpace(s[0]) then StripLeft(s[1..]) else s
  }

  function StripRight(s: string): (r: string)
    ensures |r| <= |s| && r == s[..|r|]
    ensures r == [] || !IsSpace(r[|r| - 1])
  {
    if s != [] && IsSpace(s[|s| - 1]) then StripRight(s[..|s| - 1]) else s
  }

  /** Python's `s.strip()`. */
  function Strip(s: string): (r: string)
    ensures r == [] || (!IsSpace(r[0]) && !IsSpace(r[|r| - 1]))
  {
    StripRight(StripLeft(s))
  }

  /** Python's `s.split()` with no argument: the maximal runs of non-blank chars. */
  function Words(s: string): seq<string>
    decreases |s|
  {
    var t := StripLeft(s);
    if t == [] then []
    else
      var n := WordLength(t);
      [t[..n]] + Words(t[n..])
  }

  /** Length of the leading run of non-blank chars. */
  function WordLength(s: string): (n: nat)
    ensures n <= |s|
    ensures forall j | 0 <= j < n :: !IsSpace(s[j])
    ensures n < |s| ==> IsSpace(s[n])
    ensures s != [] && !IsSpace(s[0]) ==> n > 0
  {
    if s == [] || IsSpace(s[0]) then 0 else 1 + WordLength(s[1..])
  }

  /** No blank char anywhere. */
  predicate NoBlank(s: string)
  {
    forall i | 0 <= i < |s| :: !IsSpace(s[i])
  }

  lemma {:induction false} WordLengthOf(a: string, rest: string)
    requires NoBlank(a) && (rest == [] || IsSpace(rest[0]))
    ensures WordLength(a + rest) == |a|
    decreases |a|
  {
    if a == [] {
      assert a + rest == rest;
    } else {
      assert (a + rest)[0] == a[0];
      assert (a + rest)[1..] == a[1..] + rest;
      WordLengthOf(a[1..], rest);
    }
  }

  /** `split()` of a word, a blank and more text: the word, then the split of the rest. */
  lemma WordsCons(a: string, rest: string)
    requires a != [] && NoBlank(a)
    ensures Words(a + " " + rest) == [a] + Words(rest)
  {
    var s := a + " " + rest;
    assert s == a + (" " + rest);
    assert s[0] == a[0];
    assert StripLeft(s) == s;
    WordLengthOf(a, " " + rest);
    assert s[..|a|] == a;
    assert s[|a|..] == " " + rest;
    assert (" " + rest)[1..] == rest;
    assert StripLeft(" " + rest) == StripLeft(rest);
  }

  /** `split()` of a single word. */
  lemma WordsOne(a: string)
    requires a != [] && NoBlank(a)
    ensures Words(a) == [a]
  {
    assert StripLeft(a) == a;
    WordLengthOf(a, []);
    assert a + [] == a;
  }

  /** Python's `s.replace(a, b)` for single chars. */
  function ReplaceChar(s: string, a: char, b: char): (r: string)
    ensures |r| == |s|
    ensures forall i | 0 <= i < |s| :: r[i] == if s[i] == a then b else s[i]
  {
    if s == [] then [] else [if s[0] == a then b else s[0]] + ReplaceChar(s[1..], a, b)
  }

  /** ASCII upper-casing, as Python 2's `str.upper()` in the C locale. */
  function UpperChar(ch: char): char
  {
    if 'a' <= ch <= 'z' then (ch as int - 32) as char else ch
  }

  function LowerChar(ch: char): char
  {
    if 'A' <= ch <= 'Z' then (ch as int + 32) as char else ch
  }

  function Upper(s: string): (r: string)
    ensures |r| == |s| && forall i | 0 <= i < |s| :: r[i] == UpperChar(s[i])
  {
    if s == [] then [] else [UpperChar(s[0])] + Upper(s[1..])
  }

  function Lower(s: string): (r: string)
    ensures |r| == |s| && forall i | 0 <= i < |s| :: r[i] == LowerChar(s[i])
  {
    if s == [] then [] else [LowerChar(s[0])] + Lower(s[1..])
  }

  // ---------------------------------------------------------------------
  // Numbers as text

  function DigitChar(d: nat): char
    requires d < 16
  {
    if d < 10 then ('0' as int + d) as char else ('a' as int + d - 10) as char
  }

  /** Value of a hexadecimal digit (either case), as Python's `int(c, 16)`. */
  function HexDigitValue(c: char): Option<nat>
  {
    if '0' <= c <= '9' then Some(c as int - '0' as int)
    else if 'a' <= c <= 'f' then Some(c as int - 'a' as int + 10)
    else if 'A' <= c <= 'F' then Some(c as int - 'A' as int + 10)
    else None
  }

  function DecimalDigitValue(c: char): Option<nat>
  {
    if '0' <= c <= '9' then Some(c as int - '0' as int) else None
  }

  /** Digits of `n` in the given base, most significant first, no leading zeros;
      zero is the single digit "0" (Python's `"%x" % n` and `str(n)`). */
  function NatToText(n: nat, base: nat): (r: string)
    requires 2 <= base <= 16
    ensures r != []
    decreases n
  {
    if n < base then [DigitChar(n)] else NatToText(n / base, base) + [DigitChar(n % base)]
  }

  /** `"%x" % n`. */
  function Hex(n: nat): (r: string)
    ensures r != []
  {
    NatToText(n, 16)
  }

  /** `str(i)` for a Python int. */
  function IntToText(i: int): (r: string)
    ensures r != []
  {
    if i < 0 then "-" + NatToText(-i, 10) else NatToText(i, 10)
  }

  /** Value of a non-empty run of digits in `base`; None when some char is not a digit. */
  function DigitsValue(s: string, base: nat): (r: Option<nat>)
    requires base == 10 || base == 16
    decreases |s|
  {
    if s == [] then None
    else
      var last := if base == 16 then HexDigitValue(s[|s| - 1]) else DecimalDigitValue(s[|s| - 1]);
      if last.None? || last.value >= base then None
      else if |s| == 1 then last
      else match DigitsValue(s[..|s| - 1], base)
        case None => None
        case Some(v) => Some(v * base + last.value)
  }

  /** Python's `int(s, 16)` on surrounding-blank-free text: None stands for ValueError. */
  function ParseHex(s: string): Option<nat>
  {
    DigitsValue(s, 16)
  }

  /** Python's `int(s)`: optional surrounding blanks, optional sign, decimal digits. */
  function ParseInt(s: string): Option<int>
  {
    var t := Strip(s);
    if t != [] && (t[0] == '-' || t[0] == '+') then
      match DigitsValue(t[1..], 10)
        case None => None
        case Some(v) =>
          var x: int := if t[0] == '-' then 0 - (v as int) else v as int;
          Some(x)
    else
      match DigitsValue(t, 10)
        case None => None
        case Some(v) => Some(v)
  }

  lemma {:induction false} DigitsOfText(n: nat, base: nat)
    requires base == 10 || base == 16
    ensures DigitsValue(NatToText(n, base), base) == Some(n)
    decreases n
  {
    var t := NatToText(n, base);
    if n < base {
      assert t == [DigitChar(n)];
    } else {
      var q, m := n / base, n % base;
      var h := NatToText(q, base);
      assert t == h + [DigitChar(m)];
      assert t[..|t| - 1] == h;
      DigitsOfText(q, base);
    }
  }

  /** Parsing the hex text of a number gives the number back. */
  lemma HexRoundTrip(n: nat)
    ensures ParseHex(Hex(n)) == Some(n)
  {
    DigitsOfText(n, 16);
  }

  /** Only digit chars: no blank, sign, separator or line break. */
  predicate DigitsOnly(s: string)
  {
    forall i | 0 <= i < |s| :: ('0' <= s[i] <= '9' || 'a' <= s[i] <= 'f')
  }

  lemma DigitCharIsDigit(d: nat)
    requires d < 16
    ensures '0' <= DigitChar(d) <= '9' || 'a' <= DigitChar(d) <= 'f'
  {
  }

  lemma DigitsSnoc(h: string, c: char)
    requires DigitsOnly(h) && ('0' <= c <= '9' || 'a' <= c <= 'f')
    ensures DigitsOnly(h + [c])
  {
    var t := h + [c];
    forall i | 0 <= i < |t| ensures '0' <= t[i] <= '9' || 'a' <= t[i] <= 'f' {
      if i < |h| { assert t[i] == h[i]; } else { assert t[i] == c; }
    }
  }

  lemma {:induction false} TextIsDigits(n: nat, base: nat)
    requires base == 10 || base == 16
    ensures DigitsOnly(NatToText(n, base))
    decreases n
  {
    if n < base {
      DigitCharIsDigit(n);
      assert NatToText(n, base) == [DigitChar(n)];
    } else {
      var q, m := n / base, n % base;
      TextIsDigits(q, base);
      DigitCharIsDigit(m);
      DigitsSnoc(NatToText(q, base), DigitChar(m));
      assert NatToText(n, base) == NatToText(q, base) + [DigitChar(m)];
    }
  }

  lemma NoBlankStrip(s: string)
    requires forall i | 0 <= i < |s| :: !IsSpace(s[i])
    ensures Strip(s) == s
  {
    if s != [] {
      assert !IsSpace(s[0]) && !IsSpace(s[|s| - 1]);
      assert StripLeft(s) == s;
      assert StripRight(s) == s;
    }
  }

  lemma NegativeTextNoBlank(d: string)
    requires DigitsOnly(d)
    ensures forall k | 0 <= k < |"-" + d| :: !IsSpace(("-" + d)[k])
  {
    var t := "-" + d;
    forall k | 0 <= k < |t| ensures !IsSpace(t[k]) {
      if k > 0 { assert t[k] == d[k - 1]; }
    }
  }

  lemma ParseSigned(t: string, v: nat)
    requires t != [] && t[0] == '-' && Strip(t) == t
    requires DigitsValue(t[1..], 10) == Some(v)
    ensures ParseInt(t) == Some(0 - v as int)
  {
  }

  lemma ParseUnsigned(t: string, v: nat)
    requires t != [] && t[0] != '-' && t[0] != '+' && Strip(t) == t
    requires DigitsValue(t, 10) == Some(v)
    ensures ParseInt(t) == Some(v as int)
  {
  }

  lemma DigitsNoBlank(d: string)
    requires DigitsOnly(d)
    ensures forall k | 0 <= k < |d| :: !IsSpace(d[k])
  {
  }

  lemma NegativeRoundTrip(i: int)
    requires i < 0
    ensures ParseInt(IntToText(i)) == Some(i)
  {
    var d := NatToText(-i, 10);
    TextIsDigits(-i, 10);
    DigitsOfText(-i, 10);
    var t := "-" + d;
    assert IntToText(i) == t;
    NegativeTextNoBlank(d);
    NoBlankStrip(t);
    assert t[1..] == d;
    ParseSigned(t, -i);
  }

  lemma NonNegativeRoundTrip(i: int)
    requires i >= 0
    ensures ParseInt(IntToText(i)) == Some(i)
  {
    var d := NatToText(i, 10);
    TextIsDigits(i, 10);
    DigitsOfText(i, 10);
    assert IntToText(i) == d;
    DigitsNoBlank(d);
    NoBlankStrip(d);
    assert d[0] != '-' && d[0] != '+';
    ParseUnsigned(d, i);
  }

  /** The decimal text of an int holds a sign and digits only, so it never
      contains a blank or a separator. */
  lemma IntTextFree(i: int, c: char)
    requires c != '-' && !('0' <= c <= '9') && !('a' <= c <= 'f')
    ensures c !in IntToText(i)
  {
    var m: nat := if i < 0 then -i else i;
    var d := NatToText(m, 10);
    TextIsDigits(m, 10);
    if i < 0 {
      var t := "-" + d;
      assert IntToText(i) == t;
      forall k | 0 <= k < |t| ensures t[k] != c {
        if k > 0 { assert t[k] == d[k - 1]; }
      }
    } else {
      assert IntToText(i) == d;
    }
  }

  /** Parsing the decimal text of an int gives the int back. */
  lemma IntRoundTrip(i: int)
    ensures ParseInt(IntToText(i)) == Some(i)
  {
    if i < 0 { NegativeRoundTrip(i); } else { NonNegativeRoundTrip(i); }
  }

  // ---------------------------------------------------------------------
  // Bytes

  /** The char that carries byte `b`. */
  function ByteChar(b: byte): char
  {
    b as char
  }

  /** The `n` low-order bytes of `v`, least significant first (little-endian). */
  function LittleEndian(v: nat, n: nat): (r: string)
    ensures |r| == n
    ensures forall i | 0 <= i < n :: r[i] as int < 256
  {
    if n == 0 then [] else [ByteChar(v % 256)] + LittleEndian(v / 256, n - 1)
  }

  /** The number a little-endian byte string stands for. */
  function FromLittleEndian(s: string): (v: nat)
  {
    if s == [] then 0 else (s[0] as int % 256) + 256 * FromLittleEndian(s[1..])
  }

  function Pow256(n: nat): (p: nat)
    ensures p > 0
  {
    if n == 0 then 1 else 256 * Pow256(n - 1)
  }

  /** Reading back `n` little-endian bytes gives the value, when it fits in `n` bytes. */
  lemma {:induction false} LittleEndianRoundTrip(v: nat, n: nat)
    requires v < Pow256(n)
    ensures FromLittleEndian(LittleEndian(v, n)) == v
  {
    if n > 0 {
      LittleEndianRoundTrip(v / 256, n - 1);
      var r := LittleEndian(v, n);
      assert r[1..] == LittleEndian(v / 256, n - 1);
      assert (r[0] as int) % 256 == v % 256;
    }
  }
}
