/**
 * The pieces of Python's string library that main.py relies on, as pure
 * functions over `string` (a sequence of Unicode scalar values):
 * `s.split(c)` with a one-character separator, `s.strip()`, `s.rstrip(c)`,
 * the substring test `sub in s`, `str(n)` and `int(ds)` for non-negative
 * integers, and the two regular-expression searches `\d+` and `\[(.*?)\]`.
 * Each is stated by an independent characterization proved as a lemma.
 */
module PyText {
  import opened Wrappers

  /** `c.isspace()`: the characters `str.strip()` removes when given no argument. */
  predicate IsSpace(c: char) {
    var x := c as int;
    x == 0x20 || 0x09 <= x <= 0x0D || 0x1C <= x <= 0x1F || x == 0x85 || x == 0xA0
    || x == 0x1680 || 0x2000 <= x <= 0x200A || x == 0x2028 || x == 0x2029
    || x == 0x202F || x == 0x205F || x == 0x3000
  }

  /** An ASCII decimal digit: what `\d` matches in this model. */
  predicate IsDigit(c: char) {
    '0' <= c <= '9'
  }

  predicate AllSpace(s: string) {
    forall k :: 0 <= k < |s| ==> IsSpace(s[k])
  }

  predicate AllDigits(s: string) {
    forall k :: 0 <= k < |s| ==> IsDigit(s[k])
  }

  predicate NoDigit(s: string) {
    forall k :: 0 <= k < |s| ==> !IsDigit(s[k])
  }

  // ---------------------------------------------------------------------------
  // Splitting on one character

  /** No `c` among the characters `s[a..b]`. */
  predicate Free(s: string, c: char, a: int, b: int) {
    forall m :: a <= m < b && 0 <= m < |s| ==> s[m] != c
  }

  /** The position of the first `c` in `s`, if any. */
  function IndexOf(s: string, c: char): (r: Option<nat>)
    ensures r.None? ==> Free(s, c, 0, |s|)
    ensures r.Some? ==> r.value < |s| && s[r.value] == c && Free(s, c, 0, r.value)
  {
    if s == [] then None
    else if s[0] == c then Some(0)
    else
      match IndexOf(s[1..], c)
      case None => None
      case Some(i) => Some(i + 1)
  }

  /** Any occurrence of `c` with no `c` before it is the one `IndexOf` finds. */
  lemma IndexOfAt(s: string, c: char, i: nat)
    requires i < |s| && s[i] == c && Free(s, c, 0, i)
    ensures IndexOf(s, c) == Some(i)
  {
  }

  /** `s.split(sep)`: the pieces of `s` between the occurrences of `sep`, in order. */
  function Split(s: string, sep: char): (parts: seq<string>)
    ensures |parts| >= 1
    decreases |s|
  {
    match IndexOf(s, sep)
    case None => [s]
    case Some(i) => [s[..i]] + Split(s[i + 1..], sep)
  }

  /** A split has more than one piece exactly when the separator occurs. */
  lemma SplitMany(s: string, sep: char)
    ensures |Split(s, sep)| > 1 <==> !Free(s, sep, 0, |s|)
  {
  }

  /** `sep.join(parts)`: the inverse of `Split`. */
  function Join(parts: seq<string>, sep: char): string
    requires |parts| >= 1
  {
    if |parts| == 1 then parts[0] else parts[0] + [sep] + Join(parts[1..], sep)
  }

  /** No piece of a split contains the separator. */
  lemma {:induction false} SplitPiecesFree(s: string, sep: char)
    ensures forall k :: 0 <= k < |Split(s, sep)| ==> sep !in Split(s, sep)[k]
    decreases |s|
  {
    match IndexOf(s, sep)
    case None =>
    case Some(i) =>
      SplitPiecesFree(s[i + 1..], sep);
  }

  /** Joining the pieces of a split gives the original string back. */
  lemma {:induction false} JoinSplit(s: string, sep: char)
    ensures Join(Split(s, sep), sep) == s
    decreases |s|
  {
    match IndexOf(s, sep)
    case None =>
    case Some(i) =>
      var rest := Split(s[i + 1..], sep);
      assert Split(s, sep) == [s[..i]] + rest;
      assert Join(Split(s, sep), sep) == s[..i] + [sep] + Join(rest, sep);
      JoinSplit(s[i + 1..], sep);
      assert s == s[..i] + [sep] + s[i + 1..];
  }

  /** Splitting a join of separator-free pieces gives the pieces back. */
  lemma {:induction false} SplitJoin(parts: seq<string>, sep: char)
    requires |parts| >= 1
    requires forall k :: 0 <= k < |parts| ==> sep !in parts[k]
    ensures Split(Join(parts, sep), sep) == parts
  {
    if |parts| == 1 {
      assert IndexOf(parts[0], sep) == None;
    } else {
      var s := Join(parts, sep);
      var n := |parts[0]|;
      assert s[..n] == parts[0];
      IndexOfAt(s, sep, n);
      assert s[n + 1..] == Join(parts[1..], sep);
      SplitJoin(parts[1..], sep);
    }
  }

  /** The first piece of `s.split(sep)` ends at `k`, the first `sep` or the end of `s`. */
  lemma SplitFirstPiece(s: string, sep: char, k: nat)
    requires k <= |s| && Free(s, sep, 0, k) && (k == |s| || s[k] == sep)
    ensures Split(s, sep)[0] == s[..k]
    ensures |Split(s, sep)| > 1 <==> k < |s|
    ensures k < |s| ==> Split(s, sep) == [s[..k]] + Split(s[k + 1..], sep)
  {
    if k < |s| {
      IndexOfAt(s, sep, k);
    } else {
      assert IndexOf(s, sep).None?;
      assert s[..k] == s;
    }
  }

  /** `SplitFirstPiece` for the window `t[a..c]`, whose first piece ends at `b`. */
  lemma SplitWindow(t: string, sep: char, a: nat, b: nat, c: nat)
    requires a <= b <= c <= |t| && Free(t, sep, a, b) && (b == c || t[b] == sep)
    ensures Split(t[a..c], sep)[0] == t[a..b]
    ensures |Split(t[a..c], sep)| > 1 <==> b < c
    ensures b < c ==> Split(t[a..c], sep) == [t[a..b]] + Split(t[b + 1..c], sep)
  {
    var w := t[a..c];
    assert w[..b - a] == t[a..b];
    if b < c {
      assert w[b - a + 1..] == t[b + 1..c];
    }
    SplitFirstPiece(w, sep, b - a);
  }

  // ---------------------------------------------------------------------------
  // Stripping

  /** `s.lstrip()` */
  function StripLeft(s: string): (r: string)
    ensures |r| <= |s| && r == s[|s| - |r|..]
    ensures AllSpace(s[..|s| - |r|])
    ensures r == [] || !IsSpace(r[0])
  {
    if s != [] && IsSpace(s[0]) then
      var r := StripLeft(s[1..]);
      var cut, cut1 := s[..|s| - |r|], s[1..][..|s| - 1 - |r|];
      assert AllSpace(cut) by {
        forall k | 0 <= k < |cut| ensures IsSpace(cut[k]) {
          if k > 0 { assert cut[k] == cut1[k - 1]; }
        }
      }
      r
    else s
  }

  /** `s.rstrip()` */
  function StripRight(s: string): (r: string)
    ensures |r| <= |s| && r == s[..|r|]
    ensures AllSpace(s[|r|..])
    ensures r == [] || !IsSpace(r[|r| - 1])
  {
    if s != [] && IsSpace(s[|s| - 1]) then
      var r := StripRight(s[..|s| - 1]);
      assert s[|r|..] == s[..|s| - 1][|r|..] + [s[|s| - 1]];
      r
    else s
  }

  /** `s.strip()` */
  function Strip(s: string): (r: string)
    ensures r == [] || (!IsSpace(r[0]) && !IsSpace(r[|r| - 1]))
  {
    var l := StripLeft(s);
    var r := StripRight(l);
    assert r != [] ==> r[0] == l[0];
    r
  }

  /** `Strip` keeps a slice of `s` and removes only whitespace around it. */
  lemma StripSlice(s: string) returns (a: nat)
    ensures a + |Strip(s)| <= |s| && Strip(s) == s[a..a + |Strip(s)|]
    ensures AllSpace(s[..a]) && AllSpace(s[a + |Strip(s)|..])
  {
    var l := StripLeft(s);
    var r := StripRight(l);
    a := |s| - |l|;
    assert Strip(s) == r;
    TrimmedSlice(s, l, r, a);
  }

  /** A prefix `r` of the suffix `l == s[a..]`, seen as a slice of `s`. */
  lemma TrimmedSlice(s: string, l: string, r: string, a: nat)
    requires a <= |s| && l == s[a..] && |r| <= |l| && r == l[..|r|]
    requires AllSpace(l[|r|..])
    ensures a + |r| <= |s| && r == s[a..a + |r|] && AllSpace(s[a + |r|..])
  {
    assert s[a + |r|..] == l[|r|..];
  }

  /**
   * `Strip` removes exactly the surrounding whitespace: whenever `s` is a
   * whitespace run, a middle part that neither starts nor ends with
   * whitespace, and another whitespace run, the result is that middle part.
   */
  lemma StripExact(p: string, m: string, q: string)
    requires AllSpace(p) && AllSpace(q)
    requires m == [] || (!IsSpace(m[0]) && !IsSpace(m[|m| - 1]))
    ensures Strip(p + m + q) == m
  {
    assert p + m + q == p + (m + q);
    if m == [] {
      assert AllSpace(m + q);
      StripLeftExact(p, []);
    } else {
      StripLeftExact(p, m + q);
      StripRightExact(m, q);
    }
  }

  /** `lstrip` of a whitespace run followed by text not starting with whitespace. */
  lemma StripLeftExact(p: string, r: string)
    requires AllSpace(p) && (r == [] || !IsSpace(r[0]))
    ensures StripLeft(p + r) == r
  {
    var s := p + r;
    var l := StripLeft(s);
    var a := |s| - |l|;
    assert a == |p| by {
      if r != [] {
        assert s[|p|] == r[0];
      }
    }
  }

  /** `rstrip` of text not ending in whitespace followed by a whitespace run. */
  lemma StripRightExact(m: string, q: string)
    requires AllSpace(q) && (m == [] || !IsSpace(m[|m| - 1]))
    ensures StripRight(m + q) == m
  {
    var s := m + q;
    var r := StripRight(s);
    assert |r| == |m| by {
      if m != [] {
        assert s[|m| - 1] == m[|m| - 1];
      }
    }
  }

  /** `s.rstrip(c)`: drop every trailing `c`. */
  function RStrip(s: string, c: char): (r: string)
    ensures |r| <= |s| && r == s[..|r|]
    ensures forall k :: |r| <= k < |s| ==> s[k] == c
    ensures r == [] || r[|r| - 1] != c
  {
    if s != [] && s[|s| - 1] == c then RStrip(s[..|s| - 1], c) else s
  }

  // ---------------------------------------------------------------------------
  // Substring test

  /** `sub in s` */
  function Contains(s: string, sub: string): bool
    decreases |s|
  {
    if |s| < |sub| then false else s[..|sub|] == sub || Contains(s[1..], sub)
  }

  /** An occurrence of `sub` at position `i` makes `Contains` hold. */
  lemma {:induction false} ContainsAt(s: string, sub: string, i: nat)
    requires i + |sub| <= |s| && s[i..i + |sub|] == sub
    ensures Contains(s, sub)
    decreases i
  {
    if i > 0 && s[..|sub|] != sub {
      assert s[1..][i - 1..i - 1 + |sub|] == sub;
      ContainsAt(s[1..], sub, i - 1);
    }
  }

  /** When `Contains` holds, `sub` occurs at some position `i`. */
  lemma {:induction false} ContainsWitness(s: string, sub: string) returns (i: nat)
    requires Contains(s, sub)
    ensures i + |sub| <= |s| && s[i..i + |sub|] == sub
    decreases |s|
  {
    if s[..|sub|] == sub {
      i := 0;
    } else {
      var k := ContainsWitness(s[1..], sub);
      assert s[k + 1..k + 1 + |sub|] == s[1..][k..k + |sub|];
      i := k + 1;
    }
  }

  /** `Contains` holds exactly when `sub` occurs somewhere in `s`. */
  lemma ContainsIff(s: string, sub: string)
    ensures Contains(s, sub) <==> exists i, j :: 0 <= i <= j <= |s| && s[i..j] == sub
  {
    if Contains(s, sub) {
      var i := ContainsWitness(s, sub);
      assert s[i..i + |sub|] == sub;
    }
    if exists i, j :: 0 <= i <= j <= |s| && s[i..j] == sub {
      var i, j :| 0 <= i <= j <= |s| && s[i..j] == sub;
      ContainsAt(s, sub, i);
    }
  }

  // ---------------------------------------------------------------------------
  // Decimal numbers

  function DigitValue(c: char): nat
    requires IsDigit(c)
  {
    c as int - '0' as int
  }

  function DigitChar(d: nat): (c: char)
    requires d < 10
    ensures IsDigit(c) && DigitValue(c) == d
  {
    ('0' as int + d) as char
  }

  /**
   * `int(ds)` for a non-empty run of ASCII digits (`int("")` raises, so the
   * empty run is excluded).
   */
  function DigitsValue(ds: string): nat
    requires ds != [] && AllDigits(ds)
  {
    if |ds| == 1 then DigitValue(ds[0]) else 10 * DigitsValue(ds[..|ds| - 1]) + DigitValue(ds[|ds| - 1])
  }

  /** The value is zero exactly when every digit is '0'. */
  lemma {:induction false} DigitsValueZero(ds: string)
    requires ds != [] && AllDigits(ds)
    ensures DigitsValue(ds) == 0 <==> forall k :: 0 <= k < |ds| ==> ds[k] == '0'
  {
    if |ds| > 1 {
      var init := ds[..|ds| - 1];
      DigitsValueZero(init);
      assert forall k :: 0 <= k < |init| ==> init[k] == ds[k];
    }
  }

  /** Leading zeros do not change the value: `int("007") == int("7")`. */
  lemma {:induction false} DigitsValueLeadingZeros(zs: string, ds: string)
    requires forall k :: 0 <= k < |zs| ==> zs[k] == '0'
    requires ds != [] && AllDigits(ds)
    ensures AllDigits(zs + ds) && DigitsValue(zs + ds) == DigitsValue(ds)
  {
    var s := zs + ds;
    assert AllDigits(s) by {
      forall k | 0 <= k < |s| ensures IsDigit(s[k]) {
        if k >= |zs| { assert s[k] == ds[k - |zs|]; }
      }
    }
    if zs == [] {
      assert s == ds;
    } else if |ds| == 1 {
      assert s[..|s| - 1] == zs;
      DigitsValueZero(zs);
      assert s[|s| - 1] == ds[0];
    } else {
      var init := ds[..|ds| - 1];
      assert s[..|s| - 1] == zs + init;
      assert s[|s| - 1] == ds[|ds| - 1];
      DigitsValueLeadingZeros(zs, init);
    }
  }

  /**
   * Every digit run reads as the decimal form of its value behind some
   * leading zeros: `int` drops exactly the leading zeros `str` never writes.
   */
  lemma {:induction false} DigitsValueCanonical(ds: string) returns (zs: string)
    requires ds != [] && AllDigits(ds)
    ensures forall k :: 0 <= k < |zs| ==> zs[k] == '0'
    ensures ds == zs + Decimal(DigitsValue(ds))
  {
    if |ds| == 1 || ds[0] != '0' {
      zs := [];
      DecimalOfDigits(ds);
    } else {
      var rest := DigitsValueCanonical(ds[1..]);
      zs := ['0'] + rest;
      assert ds == ['0'] + ds[1..];
      DigitsValueLeadingZeros(['0'], ds[1..]);
    }
  }

  /** `str(n)` for a non-negative integer: digits, no leading zero. */
  function Decimal(n: nat): (s: string)
    ensures |s| >= 1 && AllDigits(s)
    ensures |s| == 1 || s[0] != '0'
  {
    if n < 10 then [DigitChar(n)] else Decimal(n / 10) + [DigitChar(n % 10)]
  }

  /** `int(str(n)) == n` */
  lemma {:induction false} DecimalRoundTrip(n: nat)
    ensures DigitsValue(Decimal(n)) == n
  {
    if n >= 10 {
      DecimalRoundTrip(n / 10);
      var s := Decimal(n);
      assert s[..|s| - 1] == Decimal(n / 10);
    }
  }

  /** `str(int(ds)) == ds` for a digit run without a leading zero. */
  lemma {:induction false} DecimalOfDigits(ds: string)
    requires ds != [] && AllDigits(ds) && (|ds| == 1 || ds[0] != '0')
    ensures Decimal(DigitsValue(ds)) == ds
  {
    var c := ds[|ds| - 1];
    assert DigitChar(DigitValue(c)) == c;
    if |ds| > 1 {
      var init := ds[..|ds| - 1];
      DecimalOfDigits(init);
      assert init[0] == ds[0];
      var v := DigitsValue(ds);
      assert v / 10 == DigitsValue(init) && v % 10 == DigitValue(c);
      assert ds == init + [c];
    }
  }

  // ---------------------------------------------------------------------------
  // re.search(r'\d+', s)

  /** The longest prefix of `s` made of digits. */
  function DigitPrefix(s: string): (d: string)
    ensures |d| <= |s| && d == s[..|d|] && AllDigits(d)
    ensures |d| == |s| || !IsDigit(s[|d|])
  {
    if s != [] && IsDigit(s[0]) then [s[0]] + DigitPrefix(s[1..]) else []
  }

  /** `re.search(r'\d+', s).group()`: the first run of digits, taken whole. */
  function SearchNumber(s: string): (r: Option<string>)
    ensures r.Some? ==> r.value != [] && AllDigits(r.value)
  {
    if s == [] then None
    else if IsDigit(s[0]) then Some(DigitPrefix(s))
    else SearchNumber(s[1..])
  }

  /** The search fails exactly when `s` has no digit. */
  lemma {:induction false} SearchNumberNone(s: string)
    ensures SearchNumber(s).None? <==> NoDigit(s)
  {
    if s != [] && !IsDigit(s[0]) {
      SearchNumberNone(s[1..]);
      assert forall k :: 1 <= k < |s| ==> s[k] == s[1..][k - 1];
    }
  }

  /**
   * The search finds the run `d` in `p + d + q` when `p` has no digit and `q`
   * does not continue the run.
   */
  lemma {:induction false} SearchNumberExact(p: string, d: string, q: string)
    requires NoDigit(p) && d != [] && AllDigits(d)
    requires q == [] || !IsDigit(q[0])
    ensures SearchNumber(p + d + q) == Some(d)
  {
    var s := p + d + q;
    if p == [] {
      assert s == d + q;
      var e := DigitPrefix(s);
      assert e == s[..|d|] == d;
    } else {
      assert s[1..] == p[1..] + d + q;
      SearchNumberExact(p[1..], d, q);
    }
  }

  // ---------------------------------------------------------------------------
  // re.search(r'\[(.*?)\]', s)

  /**
   * The position of the `]` that ends a lazy `.*?` started at the front of
   * `s`: the first `]`, provided no newline comes before it.
   */
  function LazyClose(s: string): (r: Option<nat>)
    ensures r.Some? ==>
              && r.value < |s| && s[r.value] == ']'
              && forall m :: 0 <= m < r.value ==> s[m] != ']' && s[m] != '\n'
    ensures r.None? ==> forall j :: 0 <= j < |s| && s[j] == ']' ==> '\n' in s[..j]
  {
    if s == [] then None
    else if s[0] == ']' then Some(0)
    else if s[0] == '\n' then
      assert forall j :: 0 < j <= |s| ==> s[..j][0] == '\n';
      None
    else
      match LazyClose(s[1..])
      case None =>
        assert forall j :: 0 < j <= |s| ==> s[..j] == [s[0]] + s[1..][..j - 1];
        None
      case Some(j) => Some(j + 1)
  }

  /** `s[j]` is the `]` that closes a bracket opened at `s[k]`. */
  ghost predicate ClosesAt(s: string, k: int, j: int) {
    0 <= k < j < |s| && s[k] == '[' && s[j] == ']'
    && forall m :: k < m < j ==> s[m] != ']' && s[m] != '\n'
  }

  /** A match of `\[(.*?)\]` can start at `s[k]`. */
  ghost predicate OpensAt(s: string, k: int) {
    exists j :: ClosesAt(s, k, j)
  }

  /** `re.search(r'\[(.*?)\]', s).group(1)`: the text inside the first bracket pair. */
  function SearchBracket(s: string): Option<string> {
    if s == [] then None
    else if s[0] == '[' then
      match LazyClose(s[1..])
      case Some(j) => Some(s[1..1 + j])
      case None => SearchBracket(s[1..])
    else SearchBracket(s[1..])
  }

  /** A bracket opens at the front of `s` exactly when `LazyClose` finds its end. */
  lemma OpensAtFront(s: string)
    requires s != [] && s[0] == '['
    ensures OpensAt(s, 0) <==> LazyClose(s[1..]).Some?
    ensures LazyClose(s[1..]).Some? ==> ClosesAt(s, 0, LazyClose(s[1..]).value + 1)
  {
    match LazyClose(s[1..])
    case Some(j) =>
      assert ClosesAt(s, 0, j + 1);
    case None =>
  }

  /** Openings seen from `s[1..]` are the openings of `s` shifted by one. */
  lemma OpensAtShift(s: string, k: int)
    requires s != [] && 0 <= k < |s| - 1
    ensures OpensAt(s[1..], k) <==> OpensAt(s, k + 1)
  {
    if OpensAt(s[1..], k) {
      var j :| ClosesAt(s[1..], k, j);
      assert ClosesAt(s, k + 1, j + 1);
    }
    if OpensAt(s, k + 1) {
      var j :| ClosesAt(s, k + 1, j);
      assert ClosesAt(s[1..], k, j - 1);
    }
  }

  /**
   * The search returns the text of the first opening that closes: when `s[k]`
   * opens a bracket closed at `s[j]` and no earlier position opens one, the
   * result is `s[k + 1..j]`.
   */
  lemma {:induction false} SearchBracketAt(s: string, k: nat, j: nat)
    requires ClosesAt(s, k, j)
    requires forall k' :: 0 <= k' < k ==> !OpensAt(s, k')
    ensures SearchBracket(s) == Some(s[k + 1..j])
  {
    if k == 0 {
      OpensAtFront(s);
      assert s[1..][j - 1] == ']';
    } else {
      var t := s[1..];
      assert !OpensAt(s, 0);
      if s[0] == '[' {
        OpensAtFront(s);
      }
      assert SearchBracket(s) == SearchBracket(t);
      forall k' | 0 <= k' < k - 1
        ensures !OpensAt(t, k')
      {
        OpensAtShift(s, k');
      }
      assert ClosesAt(t, k - 1, j - 1);
      SearchBracketAt(t, k - 1, j - 1);
      assert t[k..j - 1] == s[k + 1..j];
    }
  }

  /** The search fails exactly when no position of `s` opens a bracket that closes. */
  lemma {:induction false} SearchBracketNone(s: string)
    ensures SearchBracket(s).None? <==> forall k :: 0 <= k < |s| ==> !OpensAt(s, k)
  {
    if s != [] {
      if s[0] == '[' {
        OpensAtFront(s);
      }
      if s[0] != '[' || LazyClose(s[1..]).None? {
        SearchBracketNone(s[1..]);
        if SearchBracket(s[1..]).None? {
          forall k | 0 <= k < |s|
            ensures !OpensAt(s, k)
          {
            if k > 0 {
              OpensAtShift(s, k - 1);
            }
          }
        } else {
          var k :| 0 <= k < |s| - 1 && OpensAt(s[1..], k);
          OpensAtShift(s, k);
        }
      }
    }
  }
}
