/**
 * `process_entry` (main.py:5-18): turns one comma-separated token of a
 * composer or publisher field, such as `Alice (ASCAP) 60% [111]`, into the
 * rights-holder's name, PRO text, share and IPI.
 */
module EntryParser {
  import opened Wrappers
  import opened PyText

  /** One parsed token. `share` is a Python `int` that can only be non-negative. */
  datatype Entry = Entry(name: string, pro: string, share: nat, ipi: string)

  /** `int(m.group()) if m else 0` for `m = re.search(r'\d+', tail)`. */
  function ShareIn(tail: string): (share: nat)
    ensures NoDigit(tail) ==> share == 0
  {
    SearchNumberNone(tail);
    match SearchNumber(tail)
    case Some(d) => DigitsValue(d)
    case None => 0
  }

  /** `m.group(1) if m else ""` for `m = re.search(r'\[(.*?)\]', tail)`. */
  function IpiIn(tail: string): (ipi: string)
    ensures (forall k :: 0 <= k < |tail| ==> !OpensAt(tail, k)) ==> ipi == ""
  {
    SearchBracketNone(tail);
    match SearchBracket(tail)
    case Some(t) => t
    case None => ""
  }

  /**
   * `process_entry(token)`. `None` stands for the `(None, None, 0, "")` that
   * the source returns for a malformed token.
   */
  function ParseEntry(token: string): Option<Entry> {
    var parts := Split(token, '(');
    if |parts| > 1 then
      var name := Strip(parts[0]);
      var rest := Split(parts[1], ')');
      if |rest| > 1 then
        var pro := Strip(rest[0]);
        var tail := Strip(rest[1]);
        Some(Entry(name, pro, ShareIn(tail), IpiIn(tail)))
      else None
    else None
  }

  /** A `)` follows the first `(` of `t` before any second `(`. */
  ghost predicate WellFormed(t: string) {
    exists i, j :: 0 <= i < j < |t| && t[i] == '(' && t[j] == ')' && Free(t, '(', 0, i) && Free(t, '(', i + 1, j)
  }

  /**
   * With `i` the first `(` of `t`, the second piece of `t.split('(')` is
   * `t[i + 1..e]`, where `e` is the next `(` or the end of `t`.
   */
  lemma SecondPiece(t: string, i: nat) returns (e: nat)
    requires i < |t| && t[i] == '(' && Free(t, '(', 0, i)
    ensures i < e <= |t| && (e == |t| || t[e] == '(') && Free(t, '(', i + 1, e)
    ensures |Split(t, '(')| > 1 && Split(t, '(')[0] == t[..i] && Split(t, '(')[1] == t[i + 1..e]
  {
    SplitFirstPiece(t, '(', i);
    var u := t[i + 1..];
    var k := match IndexOf(u, '(') case Some(m) => m case None => |u|;
    SplitFirstPiece(u, '(', k);
    e := i + 1 + k;
    assert u[..k] == t[i + 1..e];
  }

  /** A token parses exactly when it is well formed; otherwise it yields no entry. */
  lemma ParseEntryFails(t: string)
    ensures ParseEntry(t).None? <==> !WellFormed(t)
  {
    match IndexOf(t, '(')
    case None =>
      SplitFirstPiece(t, '(', |t|);
    case Some(i) =>
      var e := SecondPiece(t, i);
      SplitMany(t[i + 1..e], ')');
      WellFormedWithin(t, i, e);
  }

  /**
   * With `i` the first `(` and `e` the next `(` (or the end), a token is well
   * formed exactly when some `)` lies between them.
   */
  lemma WellFormedWithin(t: string, i: nat, e: nat)
    requires i < e <= |t| && t[i] == '(' && Free(t, '(', 0, i)
    requires (e == |t| || t[e] == '(') && Free(t, '(', i + 1, e)
    ensures WellFormed(t) <==> !Free(t[i + 1..e], ')', 0, e - i - 1)
  {
    if WellFormed(t) {
      var i', j :| 0 <= i' < j < |t| && t[i'] == '(' && t[j] == ')' && Free(t, '(', 0, i') && Free(t, '(', i' + 1, j);
      assert i' == i;
      assert t[i + 1..e][j - i - 1] == ')';
    }
    if !Free(t[i + 1..e], ')', 0, e - i - 1) {
      var m :| 0 <= m < e - i - 1 && t[i + 1..e][m] == ')';
      assert t[i + 1 + m] == ')';
    }
  }

  /**
   * The fields of a parsed token. With `i` the first `(`, `j` the first `)`
   * after it (with no `(` between), and `k` the next `(` or `)` after `j` (or
   * the end): the name is the stripped text before `i`, the PRO is the whole
   * stripped text between `i` and `j` (digits included), and the share and
   * IPI are searched for in the stripped text between `j` and `k`.
   */
  lemma ParseEntryFields(t: string, i: nat, j: nat, k: nat)
    requires i < j < k <= |t|
    requires t[i] == '(' && Free(t, '(', 0, i)
    requires t[j] == ')' && Free(t, '(', i + 1, j) && Free(t, ')', i + 1, j)
    requires k == |t| || t[k] == '(' || t[k] == ')'
    requires Free(t, '(', j + 1, k) && Free(t, ')', j + 1, k)
    ensures var tail := Strip(t[j + 1..k]);
            ParseEntry(t) == Some(Entry(Strip(t[..i]), Strip(t[i + 1..j]), ShareIn(tail), IpiIn(tail)))
  {
    TokenPieces(t, i, j, k);
  }

  /** Where the pieces `ParseEntry` takes apart lie in the token. */
  lemma TokenPieces(t: string, i: nat, j: nat, k: nat)
    requires i < j < k <= |t|
    requires t[i] == '(' && Free(t, '(', 0, i)
    requires t[j] == ')' && Free(t, '(', i + 1, j) && Free(t, ')', i + 1, j)
    requires k == |t| || t[k] == '(' || t[k] == ')'
    requires Free(t, '(', j + 1, k) && Free(t, ')', j + 1, k)
    ensures |Split(t, '(')| > 1 && Split(t, '(')[0] == t[..i]
    ensures |Split(Split(t, '(')[1], ')')| > 1
    ensures Split(Split(t, '(')[1], ')')[0] == t[i + 1..j]
    ensures Split(Split(t, '(')[1], ')')[1] == t[j + 1..k]
  {
    var e := SecondPiece(t, i);
    assert j < e && k <= e;
    RestWindow(t, i, j, e);
    TailWindow(t, j, k, e);
    RestPieces(Split(t, '('), t[i + 1..e], Split(t[j + 1..e], ')'), t[i + 1..j], t[j + 1..k]);
  }

  /** How the second `(`-piece `t[i + 1..e]` splits on `)`: the PRO, then the pieces after `t[j]`. */
  lemma RestWindow(t: string, i: nat, j: nat, e: nat)
    requires i < j < e <= |t|
    requires t[j] == ')' && Free(t, ')', i + 1, j)
    ensures Split(t[i + 1..e], ')') == [t[i + 1..j]] + Split(t[j + 1..e], ')')
  {
    var w := t[i + 1..e];
    var b := j - i - 1;
    forall m | 0 <= m < b
      ensures w[m] != ')'
    {
      assert w[m] == t[i + 1 + m];
    }
    SplitFirstPiece(w, ')', b);
    assert w[..b] == t[i + 1..j];
    assert w[b + 1..] == t[j + 1..e];
  }

  /** The first of the pieces after `t[j]` ends at the next `)`, `k`. */
  lemma TailWindow(t: string, j: nat, k: nat, e: nat)
    requires j < k <= e <= |t|
    requires Free(t, ')', j + 1, k) && (k == e || t[k] == ')')
    ensures Split(t[j + 1..e], ')')[0] == t[j + 1..k]
  {
    SplitWindow(t, ')', j + 1, k, e);
  }

  /** Chains the facts above: the PRO and tail pieces of the second `(`-piece. */
  lemma RestPieces(parts: seq<string>, seg: string, more: seq<string>, pro: string, tail: string)
    requires |parts| > 1 && parts[1] == seg
    requires Split(seg, ')') == [pro] + more && |more| >= 1 && more[0] == tail
    ensures |Split(parts[1], ')')| > 1
    ensures Split(parts[1], ')')[0] == pro && Split(parts[1], ')')[1] == tail
  {
  }
}
