/** Shared vocabulary of the recon scripts: optional and failing results,
    bytes, the ASCII character classes that Python's `\s`, `\w`, `str.split()`,
    `str.strip()` and `str.lower()` use on ASCII text, decimal formatting,
    JSON values with Python's truthiness, the single-line bracket scanner
    behind the patterns `{.+}` and `(\[.*\])`, and the order of the final
    table post-processing shared by two of the scripts. */
module Common {

  datatype Option<+T> = None | Some(value: T)

  datatype Result<+T, +E> = Success(value: T) | Failure(error: E)

  newtype byte = x: int | 0 <= x < 256

  // ---------------------------------------------------------------------
  // Characters

  predicate IsAscii(c: char) { c as int < 128 }

  /** The ASCII characters Python counts as whitespace in a text string
      (`str.isspace`, `\s`, `str.split()`, `str.strip()`): space, tab,
      line feed, vertical tab, form feed, carriage return, and the four
      separators U+001C to U+001F. */
  predicate IsSpace(c: char) { c == ' ' || '\t' <= c <= '\r' || '\U{1C}' <= c <= '\U{1F}' }

  predicate IsUpper(c: char) { 'A' <= c <= 'Z' }

  predicate IsLetter(c: char) { 'A' <= c <= 'Z' || 'a' <= c <= 'z' }

  predicate IsDigit(c: char) { '0' <= c <= '9' }

  /** A character of `\w` in the ASCII range. */
  predicate IsWordChar(c: char) { IsLetter(c) || IsDigit(c) || c == '_' }

  function ToLower(c: char): (d: char)
    ensures !IsUpper(d)
    ensures IsAscii(c) <==> IsAscii(d)
    ensures !IsUpper(c) ==> d == c
  {
    if IsUpper(c) then (c as int + 32) as char else c
  }

  /** `str.lower()` on the ASCII letters. */
  function LowerStr(s: string): (r: string)
    ensures |r| == |s|
    ensures forall i :: 0 <= i < |r| ==> !IsUpper(r[i])
    ensures forall i :: 0 <= i < |r| ==> r[i] == ToLower(s[i])
  {
    if s == [] then [] else [ToLower(s[0])] + LowerStr(s[1..])
  }

  lemma {:induction false} LowerStrAppend(a: string, b: string)
    ensures LowerStr(a + b) == LowerStr(a) + LowerStr(b)
  {
    var l, r := LowerStr(a + b), LowerStr(a) + LowerStr(b);
    assert |l| == |r|;
    forall i | 0 <= i < |l| ensures l[i] == r[i] {
      if i < |a| { assert (a + b)[i] == a[i]; } else { assert (a + b)[i] == b[i - |a|]; }
    }
  }

  /** Lower-casing around a separator that has no capital. */
  lemma LowerStrAround(a: string, c: char, b: string)
    requires !IsUpper(c)
    ensures LowerStr(a + [c] + b) == LowerStr(a) + [c] + LowerStr(b)
  {
    LowerStrAppend(a + [c], b);
    LowerStrAppend(a, [c]);
    assert LowerStr([c])[0] == c;
  }

  lemma {:induction false} LowerStrOfLower(s: string)
    requires forall i :: 0 <= i < |s| ==> !IsUpper(s[i])
    ensures LowerStr(s) == s
  {
    var l := LowerStr(s);
    forall i | 0 <= i < |s| ensures l[i] == s[i] { }
  }

  predicate AllAscii(s: string) { forall i :: 0 <= i < |s| ==> IsAscii(s[i]) }

  function CountChar(s: string, c: char): (n: nat)
    ensures n <= |s|
  {
    if s == [] then 0 else (if s[0] == c then 1 else 0) + CountChar(s[1..], c)
  }

  function Concat(parts: seq<string>): string {
    if parts == [] then [] else parts[0] + Concat(parts[1..])
  }

  lemma {:induction false} ConcatAppend(a: seq<string>, b: seq<string>)
    ensures Concat(a + b) == Concat(a) + Concat(b)
  {
    if a != [] {
      assert (a + b)[1..] == a[1..] + b;
      ConcatAppend(a[1..], b);
    } else {
      assert a + b == b;
    }
  }

  // ---------------------------------------------------------------------
  // Python's str.split() without arguments: runs of whitespace separate
  // words, and no word is empty.

  function WordLength(s: string): (n: nat)
    ensures n <= |s|
    ensures forall i :: 0 <= i < n ==> !IsSpace(s[i])
    ensures n == |s| || IsSpace(s[n])
  {
    if s == [] || IsSpace(s[0]) then 0 else 1 + WordLength(s[1..])
  }

  function Words(s: string): (ws: seq<string>)
    ensures forall k :: 0 <= k < |ws| ==> ws[k] != []
    ensures forall k, i :: 0 <= k < |ws| && 0 <= i < |ws[k]| ==> !IsSpace(ws[k][i])
    decreases |s|
  {
    if s == [] then []
    else if IsSpace(s[0]) then Words(s[1..])
    else
      var n := WordLength(s);
      [s[..n]] + Words(s[n..])
  }

  function NonSpace(s: string): string {
    if s == [] then [] else (if IsSpace(s[0]) then [] else [s[0]]) + NonSpace(s[1..])
  }

  lemma {:induction false} NonSpaceAppend(a: string, b: string)
    ensures NonSpace(a + b) == NonSpace(a) + NonSpace(b)
  {
    if a != [] {
      assert (a + b)[0] == a[0] && (a + b)[1..] == a[1..] + b;
      NonSpaceAppend(a[1..], b);
    } else {
      assert a + b == b;
    }
  }

  lemma {:induction false} NonSpaceOfWord(w: string)
    requires forall i :: 0 <= i < |w| ==> !IsSpace(w[i])
    ensures NonSpace(w) == w
  {
    if w != [] { NonSpaceOfWord(w[1..]); }
  }

  /** No character is lost or added by splitting: the words, put back
      together, are exactly the non-whitespace characters of the input. */
  lemma {:induction false} WordsKeepNonSpace(s: string)
    ensures Concat(Words(s)) == NonSpace(s)
    decreases |s|
  {
    if s == [] {
    } else if IsSpace(s[0]) {
      WordsKeepNonSpace(s[1..]);
    } else {
      var n := WordLength(s);
      WordsKeepNonSpace(s[n..]);
      NonSpaceOfWord(s[..n]);
      assert s == s[..n] + s[n..];
      NonSpaceAppend(s[..n], s[n..]);
      assert ([s[..n]] + Words(s[n..]))[1..] == Words(s[n..]);
    }
  }

  function JoinWords(ws: seq<string>): string {
    if ws == [] then [] else if |ws| == 1 then ws[0] else ws[0] + " " + JoinWords(ws[1..])
  }

  lemma WordsAfterSpace(t: string)
    ensures Words(" " + t) == Words(t)
  {
    assert (" " + t)[1..] == t;
  }

  lemma {:induction false} WordsOfWordThen(w: string, t: string)
    requires w != []
    requires forall i :: 0 <= i < |w| ==> !IsSpace(w[i])
    requires t == [] || IsSpace(t[0])
    ensures Words(w + t) == [w] + Words(t)
  {
    var s := w + t;
    WordLengthOfWordThen(w, t);
    assert s[..|w|] == w && s[|w|..] == t;
  }

  lemma {:induction false} WordLengthOfWordThen(w: string, t: string)
    requires forall i :: 0 <= i < |w| ==> !IsSpace(w[i])
    requires t == [] || IsSpace(t[0])
    ensures WordLength(w + t) == |w|
  {
    if w != [] {
      assert (w + t)[1..] == w[1..] + t;
      WordLengthOfWordThen(w[1..], t);
    } else {
      assert w + t == t;
    }
  }

  /** Splitting undoes joining with single spaces, for words that are
      non-empty and hold no whitespace. */
  lemma {:induction false} WordsOfJoin(ws: seq<string>)
    requires forall k :: 0 <= k < |ws| ==> ws[k] != []
    requires forall k, i :: 0 <= k < |ws| && 0 <= i < |ws[k]| ==> !IsSpace(ws[k][i])
    ensures Words(JoinWords(ws)) == ws
  {
    if |ws| == 1 {
      WordsOfWordThen(ws[0], []);
      assert ws[0] + [] == ws[0];
    } else if |ws| > 1 {
      var rest := JoinWords(ws[1..]);
      WordsOfJoin(ws[1..]);
      assert JoinWords(ws) == ws[0] + (" " + rest);
      WordsOfWordThen(ws[0], " " + rest);
      WordsAfterSpace(rest);
      assert ws == [ws[0]] + ws[1..];
    }
  }

  // ---------------------------------------------------------------------
  // Python's str.split(sep) with a one-character separator: every
  // separator ends a part, and parts may be empty.

  function IndexOf(s: string, c: char): (i: nat)
    requires c in s
    ensures i < |s| && s[i] == c && c !in s[..i]
  {
    if s[0] == c then 0 else 1 + IndexOf(s[1..], c)
  }

  function SplitOn(s: string, sep: char): (parts: seq<string>)
    ensures |parts| >= 1
    decreases |s|
  {
    if sep !in s then [s]
    else
      var i := IndexOf(s, sep);
      [s[..i]] + SplitOn(s[i + 1..], sep)
  }

  function JoinOn(parts: seq<string>, sep: char): string
    requires |parts| >= 1
  {
    if |parts| == 1 then parts[0] else parts[0] + [sep] + JoinOn(parts[1..], sep)
  }

  /** The parts hold no separator, and joining them back with it gives the input. */
  lemma {:induction false} SplitOnJoin(s: string, sep: char)
    ensures JoinOn(SplitOn(s, sep), sep) == s
    ensures forall k :: 0 <= k < |SplitOn(s, sep)| ==> sep !in SplitOn(s, sep)[k]
    decreases |s|
  {
    if sep in s {
      var i := IndexOf(s, sep);
      SplitOnJoin(s[i + 1..], sep);
      assert s == s[..i] + [sep] + s[i + 1..];
      var ps := SplitOn(s, sep);
      assert ps[1..] == SplitOn(s[i + 1..], sep);
    }
  }

  /** One part more than there are separators. */
  lemma {:induction false} SplitOnCount(s: string, sep: char)
    ensures |SplitOn(s, sep)| == CountChar(s, sep) + 1
    decreases |s|
  {
    if sep in s {
      var i := IndexOf(s, sep);
      SplitOnCount(s[i + 1..], sep);
      CountCharSplit(s, i, sep);
    } else {
      CountCharAbsent(s, sep);
    }
  }

  lemma {:induction false} CountCharAbsent(s: string, c: char)
    requires c !in s
    ensures CountChar(s, c) == 0
  {
    if s != [] { assert c !in s[1..] by { assert forall x :: x in s[1..] ==> x in s; } CountCharAbsent(s[1..], c); }
  }

  lemma {:induction false} CountCharSplit(s: string, i: nat, c: char)
    requires i < |s| && s[i] == c && c !in s[..i]
    ensures CountChar(s, c) == 1 + CountChar(s[i + 1..], c)
  {
    if i == 0 {
    } else {
      assert s[1..][..i - 1] == s[1..i];
      assert c !in s[1..][..i - 1] by { assert forall x :: x in s[1..i] ==> x in s[..i]; }
      CountCharSplit(s[1..], i - 1, c);
      assert s[1..][i..] == s[i + 1..];
    }
  }

  // ---------------------------------------------------------------------
  // Trimming: Python's str.strip() and str.strip(chars).

  function TrimLeft(s: string, drop: char -> bool): (r: string)
    ensures |r| <= |s| && r == s[|s| - |r|..]
    ensures r == [] || !drop(r[0])
    ensures forall i :: 0 <= i < |s| - |r| ==> drop(s[i])
  {
    if s == [] || !drop(s[0]) then s else TrimLeft(s[1..], drop)
  }

  function TrimRight(s: string, drop: char -> bool): (r: string)
    ensures |r| <= |s| && r == s[..|r|]
    ensures r == [] || !drop(r[|r| - 1])
    ensures forall i :: |r| <= i < |s| ==> drop(s[i])
  {
    if s == [] || !drop(s[|s| - 1]) then s else TrimRight(s[..|s| - 1], drop)
  }

  function Trim(s: string, drop: char -> bool): (r: string) {
    TrimRight(TrimLeft(s, drop), drop)
  }

  /** s[i..j] is what is left of s once a run of dropped characters before
      i and one from j on are removed. */
  predicate MiddleOf(s: string, drop: char -> bool, i: nat, j: nat) {
    && i <= j <= |s|
    && (forall k :: 0 <= k < i ==> drop(s[k]))
    && (forall k :: j <= k < |s| ==> drop(s[k]))
  }

  /** `Trim` removes runs of dropped characters at both ends and keeps the
      middle of the input verbatim. */
  lemma TrimIsMiddle(s: string, drop: char -> bool)
    ensures exists i: nat, j: nat :: MiddleOf(s, drop, i, j) && Trim(s, drop) == s[i..j]
  {
    var l := TrimLeft(s, drop);
    var r := TrimRight(l, drop);
    var i, j := |s| - |l|, |s| - |l| + |r|;
    assert MiddleOf(s, drop, i, j) && r == s[i..j] by {
      MiddleOfEnds(s, l, r, drop);
    }
  }

  /** A suffix l of s after dropped characters, and a prefix r of l before
      dropped ones, is a middle of s. */
  lemma MiddleOfEnds(s: string, l: string, r: string, drop: char -> bool)
    requires |l| <= |s| && l == s[|s| - |l|..] && forall k :: 0 <= k < |s| - |l| ==> drop(s[k])
    requires |r| <= |l| && r == l[..|r|] && forall k :: |r| <= k < |l| ==> drop(l[k])
    ensures MiddleOf(s, drop, |s| - |l|, |s| - |l| + |r|) && r == s[|s| - |l|..|s| - |l| + |r|]
  {
    var i := |s| - |l|;
    forall k | i + |r| <= k < |s| ensures drop(s[k]) {
      assert s[k] == l[k - i];
    }
  }

  /** The runs removed are maximal: what is left neither starts nor ends
      with a dropped character. */
  lemma TrimEnds(s: string, drop: char -> bool)
    ensures Trim(s, drop) == [] || (!drop(Trim(s, drop)[0]) && !drop(Trim(s, drop)[|Trim(s, drop)| - 1]))
  {
    var l := TrimLeft(s, drop);
    var r := TrimRight(l, drop);
    if r != [] {
      assert r[0] == l[0];
    }
  }

  predicate IsDot(c: char) { c == '.' }

  // ---------------------------------------------------------------------
  // Decimal formatting (Python's and Ruby's integer-to-string) and zero padding.

  function DigitChar(d: nat): char
    requires d < 10
  {
    ('0' as int + d) as char
  }

  function Decimal(n: nat): (s: string)
    ensures 1 <= |s|
    ensures forall i :: 0 <= i < |s| ==> IsDigit(s[i])
  {
    if n < 10 then [DigitChar(n)] else Decimal(n / 10) + [DigitChar(n % 10)]
  }

  function DigitValue(c: char): nat
    requires IsDigit(c)
  {
    c as int - '0' as int
  }

  /** Value of a string of decimal digits, the inverse of formatting. */
  function DecimalValue(s: string): nat
    requires forall i :: 0 <= i < |s| ==> IsDigit(s[i])
  {
    if s == [] then 0 else 10 * DecimalValue(s[..|s| - 1]) + DigitValue(s[|s| - 1])
  }

  lemma {:induction false} DecimalRoundTrip(n: nat)
    ensures DecimalValue(Decimal(n)) == n
  {
    if n >= 10 {
      DecimalRoundTrip(n / 10);
      var s := Decimal(n);
      assert s[..|s| - 1] == Decimal(n / 10);
    }
  }

  /** Formatting a larger number never gives fewer digits. */
  lemma {:induction false} DecimalLengthMonotone(m: nat, n: nat)
    requires m <= n
    ensures |Decimal(m)| <= |Decimal(n)|
  {
    if m >= 10 { DecimalLengthMonotone(m / 10, n / 10); }
  }

  /** Ruby's `"%0<w>d" % n`: the decimal digits of n with zeros prepended
      up to w characters, never truncated. */
  function ZeroPad(n: nat, width: nat): (s: string)
    ensures |s| == if |Decimal(n)| < width then width else |Decimal(n)|
    ensures forall i :: 0 <= i < |s| ==> IsDigit(s[i])
  {
    var d := Decimal(n);
    if |d| < width then seq(width - |d|, _ => '0') + d else d
  }

  lemma {:induction false} LeadingZerosValue(z: nat, t: string)
    requires forall i :: 0 <= i < |t| ==> IsDigit(t[i])
    ensures DecimalValue(seq(z, _ => '0') + t) == DecimalValue(t)
    decreases |t|
  {
    var s := seq(z, _ => '0') + t;
    if t == [] {
      assert s == seq(z, _ => '0');
      ZerosValue(z);
    } else {
      assert s[..|s| - 1] == seq(z, _ => '0') + t[..|t| - 1];
      LeadingZerosValue(z, t[..|t| - 1]);
    }
  }

  lemma {:induction false} ZerosValue(z: nat)
    ensures DecimalValue(seq(z, _ => '0')) == 0
  {
    if z > 0 {
      assert seq(z, _ => '0')[..z - 1] == seq(z - 1, _ => '0');
      ZerosValue(z - 1);
    }
  }

  /** Zero padding loses nothing: the padded string still reads as n. */
  lemma ZeroPadRoundTrip(n: nat, width: nat)
    ensures DecimalValue(ZeroPad(n, width)) == n
  {
    var d := Decimal(n);
    DecimalRoundTrip(n);
    if |d| < width { LeadingZerosValue(width - |d|, d); }
  }

  // ---------------------------------------------------------------------
  // JSON values as Python's json.loads returns them, and Python truthiness.

  datatype Json =
    | JNull
    | JBool(b: bool)
    | JNumber(n: int)
    | JString(s: string)
    | JArray(items: seq<Json>)
    | JObject(members: map<string, Json>)

  /** `bool(v)` in Python: None, False, 0, "", [] and {} are false. */
  predicate Truthy(v: Json) {
    match v
    case JNull => false
    case JBool(b) => b
    case JNumber(n) => n != 0
    case JString(s) => s != []
    case JArray(items) => items != []
    case JObject(members) => members != map[]
  }

  // ---------------------------------------------------------------------
  // The single-line bracket span of `re.search` with `{.+}` (at least one
  // character inside) or `(\[.*\])` (possibly none): `.` matches anything
  // but a line feed, so the span is confined to one line; the leftmost
  // opening bracket that can start a match wins, and the greedy inner
  // part makes the match end at the LAST closing bracket on that line.

  /** s[i..j+1] is a candidate match: opening at i, closing at j, at least
      `minInner` characters between them, no line feed anywhere inside. */
  predicate SpanAt(s: string, open: char, close: char, minInner: nat, i: nat, j: nat) {
    && i < j < |s| && i + minInner < j
    && s[i] == open && s[j] == close
    && forall m :: i < m < j ==> s[m] != '\n'
  }

  function LineEnd(s: string, k: nat): (e: nat)
    requires k <= |s|
    ensures k <= e <= |s| && (e == |s| || s[e] == '\n')
    ensures forall m :: k <= m < e ==> s[m] != '\n'
    decreases |s| - k
  {
    if k == |s| || s[k] == '\n' then k else LineEnd(s, k + 1)
  }

  /** The last position in [lo, hi) that holds c. */
  function LastIn(s: string, lo: nat, hi: nat, c: char): (r: Option<nat>)
    requires hi <= |s|
    ensures r.None? ==> forall m :: lo <= m < hi ==> s[m] != c
    ensures r.Some? ==> lo <= r.value < hi && s[r.value] == c
    ensures r.Some? ==> forall m :: r.value < m < hi ==> s[m] != c
    decreases hi
  {
    if hi <= lo then None
    else if s[hi - 1] == c then Some(hi - 1)
    else LastIn(s, lo, hi - 1, c)
  }

  /** The closing position of the greedy match that starts at i, if any. */
  function CloseFor(s: string, open: char, close: char, minInner: nat, i: nat): (r: Option<nat>)
    requires i < |s| && close != '\n'
    ensures r.None? ==> forall j :: !SpanAt(s, open, close, minInner, i, j)
    ensures r.Some? ==> SpanAt(s, open, close, minInner, i, r.value)
    ensures r.Some? ==> forall j :: r.value < j ==> !SpanAt(s, open, close, minInner, i, j)
  {
    if s[i] != open then None
    else
      var e := LineEnd(s, i + 1);
      if i + minInner + 1 > e then None else LastIn(s, i + minInner + 1, e, close)
  }

  function FindSpanFrom(s: string, open: char, close: char, minInner: nat, from: nat): (r: Option<(nat, nat)>)
    requires from <= |s| && close != '\n'
    ensures r.None? ==> forall i, j :: from <= i ==> !SpanAt(s, open, close, minInner, i, j)
    ensures r.Some? ==> from <= r.value.0 && SpanAt(s, open, close, minInner, r.value.0, r.value.1)
    ensures r.Some? ==> forall i, j :: from <= i < r.value.0 ==> !SpanAt(s, open, close, minInner, i, j)
    ensures r.Some? ==> forall j :: r.value.1 < j ==> !SpanAt(s, open, close, minInner, r.value.0, j)
    decreases |s| - from
  {
    if from == |s| then None
    else match CloseFor(s, open, close, minInner, from)
      case Some(j) => Some((from, j))
      case None => FindSpanFrom(s, open, close, minInner, from + 1)
  }

  /** The matched text of the leftmost-greedy single-line span, or None
      when no opening bracket has a closing one after it on its line. */
  function FindSpan(s: string, open: char, close: char, minInner: nat): (r: Option<string>)
    requires close != '\n'
    ensures r.None? <==> forall i, j :: !SpanAt(s, open, close, minInner, i, j)
    ensures r.Some? ==>
              exists i: nat, j: nat ::
                && SpanAt(s, open, close, minInner, i, j) && r.value == s[i..j + 1]
                && (forall i': nat, j': nat :: i' < i ==> !SpanAt(s, open, close, minInner, i', j'))
                && (forall j': nat :: j < j' ==> !SpanAt(s, open, close, minInner, i, j'))
  {
    match FindSpanFrom(s, open, close, minInner, 0)
    case None => None
    case Some((i, j)) =>
      assert SpanAt(s, open, close, minInner, i, j);
      Some(s[i..j + 1])
  }

  // ---------------------------------------------------------------------
  // The table post-processing that two scripts run on their collected
  // rows, in this order: de-duplicate, query, sort, drop columns, CSV.

  datatype Step = Dedupe | Query(expr: string) | SortBy(keys: seq<string>)
                | DropColumns(cols: seq<string>) | WriteCsv(cols: seq<string>)

  /** Optional settings; an empty string or list means "not given". */
  datatype TableOptions = TableOptions(query: string, sortBy: seq<string>, dropColumns: seq<string>, columns: seq<string>)

  datatype Finish = NoDataWarning | Table(steps: seq<Step>)

  function Rank(st: Step): nat {
    match st
    case Dedupe => 0
    case Query(_) => 1
    case SortBy(_) => 2
    case DropColumns(_) => 3
    case WriteCsv(_) => 4
  }

  function Postprocess(rows: nat, o: TableOptions): (r: Finish)
    ensures r.NoDataWarning? <==> rows == 0
    ensures r.Table? ==> |r.steps| >= 2 && r.steps[0] == Dedupe && r.steps[|r.steps| - 1] == WriteCsv(o.columns)
    ensures r.Table? ==> forall a, b :: 0 <= a < b < |r.steps| ==> Rank(r.steps[a]) < Rank(r.steps[b])
    ensures r.Table? ==> (Query(o.query) in r.steps <==> o.query != [])
    ensures r.Table? ==> (SortBy(o.sortBy) in r.steps <==> o.sortBy != [])
    ensures r.Table? ==> (DropColumns(o.dropColumns) in r.steps <==> o.dropColumns != [])
  {
    if rows == 0 then NoDataWarning
    else
      Table([Dedupe]
        + (if o.query != [] then [Query(o.query)] else [])
        + (if o.sortBy != [] then [SortBy(o.sortBy)] else [])
        + (if o.dropColumns != [] then [DropColumns(o.dropColumns)] else [])
        + [WriteCsv(o.columns)])
  }

  // ---------------------------------------------------------------------
  // Slices

  lemma TakeDrop<T>(s: seq<T>, i: nat)
    requires i <= |s|
    ensures s[..i] + s[i..] == s
  {
  }

  lemma TakeTake<T>(s: seq<T>, i: nat)
    requires i < |s|
    ensures s[..i + 1][..i] == s[..i]
  {
  }

  lemma TakeAll<T>(s: seq<T>)
    ensures s[..|s|] == s
  {
  }

  lemma AppendAssoc<T>(a: seq<T>, b: seq<T>, c: seq<T>)
    ensures (a + b) + c == a + (b + c)
  {
  }

  lemma InitOfAppend<T>(a: seq<T>, b: seq<T>)
    requires b != []
    ensures (a + b)[..|a + b| - 1] == a + b[..|b| - 1]
  {
  }
}
