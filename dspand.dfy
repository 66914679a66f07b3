/** The payload splitter of the antivirus-signature helper: `split` cuts a
    payload into a growing list of prefixes, one test case per step of a
    fixed size, and `save` names the test cases with a zero-padded counter. */
module Dspand {
  import opened Common

  /** The lengths produced when the stepping loop visits the value i:
      nothing for the first value 0; for the last visited value (the next
      step would pass the end) a prefix of length i followed by the whole
      payload; otherwise one prefix of length i. */
  function StepLengths(i: nat, len: nat, n: nat): seq<nat> {
    if i == 0 then [] else if i + n > len then [i, len] else [i]
  }

  /** The lengths produced by the visited values from i on: i, i+n, ...
      up to len. */
  function Visit(i: nat, len: nat, n: nat): seq<nat>
    requires n > 0
    decreases if i <= len then len + 1 - i else 0
  {
    if i > len then [] else StepLengths(i, len, n) + Visit(i + n, len, n)
  }

  /** Ruby's `(0..len).step(n)` visits 0, n, 2n, ... up to len. */
  function PieceLengths(len: nat, n: nat): seq<nat>
    requires n > 0
  {
    Visit(0, len, n)
  }

  function Prefixes(data: seq<byte>, lens: seq<nat>): (r: seq<seq<byte>>)
    requires forall k :: 0 <= k < |lens| ==> lens[k] <= |data|
    ensures |r| == |lens|
    ensures forall k :: 0 <= k < |r| ==> r[k] == data[..lens[k]]
  {
    seq(|lens|, k requires 0 <= k < |lens| => data[..lens[k]])
  }

  lemma {:induction false} VisitBounded(i: nat, len: nat, n: nat)
    requires n > 0
    ensures forall k :: 0 <= k < |Visit(i, len, n)| ==> Visit(i, len, n)[k] <= len
    decreases if i <= len then len + 1 - i else 0
  {
    if i <= len { VisitBounded(i + n, len, n); }
  }

  /** split(data, n): the stepping loop of Ruby's `(0..len).step(n)`. The
      block variable i is a copy, so assigning the payload length to it
      inside the block (the `cut` below) does not change the next step. */
  method Split(data: seq<byte>, n: nat) returns (files: seq<seq<byte>>)
    requires n > 0
    ensures forall k :: 0 <= k < |PieceLengths(|data|, n)| ==> PieceLengths(|data|, n)[k] <= |data|
    ensures files == Prefixes(data, PieceLengths(|data|, n))
  {
    VisitBounded(0, |data|, n);
    files := [];
    var i := 0;
    ghost var done: seq<nat> := [];
    while i <= |data|
      invariant PieceLengths(|data|, n) == done + Visit(i, |data|, n)
      invariant forall k :: 0 <= k < |done| ==> done[k] <= |data|
      invariant files == Prefixes(data, done)
      decreases |data| + 1 - i
    {
      VisitBounded(i, |data|, n);
      ghost var step := StepLengths(i, |data|, n);
      ghost var before := files;
      if i != 0 {
        var cut := i;
        if cut + n > |data| {
          files := files + [data[..cut]];
          cut := |data|;
          assert step == [i, |data|];
        } else {
          assert step == [i];
        }
        files := files + [data[..cut]];
      }
      assert files == before + Prefixes(data, step);
      PrefixesAppend(data, done, step);
      VisitStep(i, |data|, n);
      AppendAssoc(done, step, Visit(i + n, |data|, n));
      done := done + step;
      i := i + n;
    }
  }

  lemma VisitStep(i: nat, len: nat, n: nat)
    requires n > 0 && i <= len
    ensures Visit(i, len, n) == StepLengths(i, len, n) + Visit(i + n, len, n)
  {
  }

  lemma PrefixesAppend(data: seq<byte>, a: seq<nat>, b: seq<nat>)
    requires forall k :: 0 <= k < |a| ==> a[k] <= |data|
    requires forall k :: 0 <= k < |b| ==> b[k] <= |data|
    ensures forall k :: 0 <= k < |a + b| ==> (a + b)[k] <= |data|
    ensures Prefixes(data, a + b) == Prefixes(data, a) + Prefixes(data, b)
  {
  }

  lemma MulStep(a: nat, n: nat)
    ensures (a + 1) * n == a * n + n
  {
  }

  /** The lengths from a positive visited value i whose last step m*n
      further on is the final one. */
  lemma {:induction false} VisitClosedForm(i: nat, len: nat, n: nat, m: nat)
    requires n > 0 && i > 0 && i + m * n <= len < i + m * n + n
    ensures Visit(i, len, n) == seq(m + 1, j => i + j * n) + [len]
    decreases m
  {
    if m == 0 {
      assert Visit(i + n, len, n) == [];
      assert seq(1, j => i + j * n) == [i];
    } else {
      MulStep(m - 1, n);
      VisitClosedForm(i + n, len, n, m - 1);
      assert i + n <= len;
      var a := [i] + (seq(m, j => (i + n) + j * n) + [len]);
      var b := seq(m + 1, j => i + j * n) + [len];
      assert |a| == |b|;
      forall j | 0 <= j < |a| ensures a[j] == b[j] {
        if 0 < j <= m { MulStep(j - 1, n); }
      }
    }
  }

  /** For a payload at least one step long the lengths are n, 2n, ...,
      (len / n) * n followed by the whole payload; for a shorter payload
      there are none. */
  lemma {:induction false} PieceLengthsClosedForm(len: nat, n: nat)
    requires n > 0
    ensures len < n ==> PieceLengths(len, n) == []
    ensures len >= n ==> PieceLengths(len, n) == seq(len / n, j => (j + 1) * n) + [len]
  {
    var q := len / n;
    assert len == q * n + len % n;
    if len < n {
      assert Visit(n, len, n) == [];
    } else {
      assert q >= 1;
      MulStep(q - 1, n);
      VisitClosedForm(n, len, n, q - 1);
      var a := seq(q, j => n + j * n);
      var b := seq(q, j => (j + 1) * n);
      forall j | 0 <= j < q ensures a[j] == b[j] { MulStep(j, n); }
      assert a == b;
    }
  }

  lemma {:induction false} MulMonotone(a: nat, b: nat, n: nat)
    requires a <= b
    ensures a * n <= b * n
    decreases b - a
  {
    if a < b {
      MulMonotone(a + 1, b, n);
      MulStep(a, n);
    }
  }

  /** What the splitter promises about its list: nothing for a payload
      shorter than a step; otherwise len / n + 1 prefixes of the payload, of
      non-decreasing length, the last of them the whole payload, and the
      whole payload once more just before it when the length is a multiple
      of the step. */
  lemma SplitShape(data: seq<byte>, n: nat)
    requires n > 0
    ensures |data| < n ==> PieceLengths(|data|, n) == []
    ensures |data| >= n ==> |PieceLengths(|data|, n)| == |data| / n + 1
    ensures |data| >= n ==> PieceLengths(|data|, n)[|data| / n] == |data|
    ensures forall a, b :: 0 <= a < b < |PieceLengths(|data|, n)| ==>
              PieceLengths(|data|, n)[a] <= PieceLengths(|data|, n)[b] <= |data|
    ensures |data| >= n && |data| % n == 0 ==> PieceLengths(|data|, n)[|data| / n - 1] == |data|
  {
    var len := |data|;
    PieceLengthsClosedForm(len, n);
    if len >= n {
      var lens := PieceLengths(len, n);
      var m := len / n;
      assert len == m * n + len % n;
      forall a, b | 0 <= a < b < |lens| ensures lens[a] <= lens[b] <= len {
        if b < m {
          MulMonotone(a + 1, b + 1, n);
          MulMonotone(b + 1, m, n);
        } else {
          MulMonotone(a + 1, m, n);
        }
      }
      if len % n == 0 {
        assert lens[m - 1] == m * n;
      }
    }
  }

  // ---------------------------------------------------------------------
  // save(folder_path, files, ext): only the names of the written files.

  function Extension(ext: Option<string>): string {
    if ext.Some? then ext.value else "exe"
  }

  /** What Ruby's `format % counter` makes of the text that follows the
      counter's directive, the extension, once the only argument is used:
      `%%` gives one `%`; a `%` before a line feed or a NUL is kept as it
      is; any other `%`, a trailing one included, raises ArgumentError
      (None), because every other directive needs an argument, a name
      or a hash that is not there, or is malformed. */
  function FormatTail(s: string): (r: Option<string>)
    ensures '%' !in s ==> r == Some(s)
    ensures r.Some? ==> |r.value| <= |s|
    decreases |s|
  {
    if s == [] then Some([])
    else if s[0] != '%' then
      assert s == [s[0]] + s[1..];
      match FormatTail(s[1..])
      case None => None
      case Some(t) => Some([s[0]] + t)
    else if |s| >= 2 && s[1] == '%' then
      match FormatTail(s[2..])
      case None => None
      case Some(t) => Some(['%'] + t)
    else if |s| >= 2 && (s[1] == '\n' || s[1] == '\0') then
      match FormatTail(s[1..])
      case None => None
      case Some(t) => Some(['%'] + t)
    else None
  }

  /** The extension as it appears in the written names, or None when
      formatting the name raises. */
  function NameSuffix(ext: Option<string>): Option<string> {
    FormatTail(Extension(ext))
  }

  /** Writing every `%` of a text twice is how an extension spells a
      literal `%`. */
  function EscapePercent(t: string): (r: string)
    ensures |r| == |t| + CountChar(t, '%')
  {
    if t == [] then []
    else (if t[0] == '%' then "%%" else [t[0]]) + EscapePercent(t[1..])
  }

  lemma {:induction false} FormatTailEscape(t: string)
    ensures FormatTail(EscapePercent(t)) == Some(t)
    decreases |t|
  {
    if t != [] {
      var rest := EscapePercent(t[1..]);
      FormatTailEscape(t[1..]);
      if t[0] == '%' {
        assert EscapePercent(t) == "%%" + rest;
        assert ("%%" + rest)[2..] == rest;
      } else {
        assert EscapePercent(t) == [t[0]] + rest;
        assert ([t[0]] + rest)[1..] == rest;
      }
      assert [t[0]] + t[1..] == t;
    }
  }

  /** `-e "a%%b"` names the files `….a%b`; `-e "%d"` and `-e "a%"` stop
      the script before the first file is written. */
  lemma FormatTailExamples()
    ensures FormatTail("a%%b") == Some("a%b")
    ensures FormatTail("%d") == None
    ensures FormatTail("a%") == None
    ensures FormatTail("%\nx") == Some("%\nx")
  {
    assert "a%%b"[1..] == "%%b" && "%%b"[2..] == "b";
    assert FormatTail("b") == Some("b");
    assert ['%'] + "b" == "%b" && ['a'] + "%b" == "a%b";
    assert "%d"[0] == '%' && "%d"[1] == 'd';
    assert "a%"[1..] == "%" && "%"[0] == '%';
    assert "%\nx"[0] == '%' && "%\nx"[1] == '\n' && "%\nx"[1..] == "\nx";
    assert FormatTail("\nx") == Some("\nx");
    assert ['%'] + "\nx" == "%\nx";
  }

  /** `"test_case_%0<w>d.<ext>" % counter`, where w is the number of
      decimal digits of the number of test cases and `suffix` the
      formatted extension. */
  function TestCaseName(counter: nat, count: nat, suffix: string): string {
    "test_case_" + ZeroPad(counter, |Decimal(count)|) + "." + suffix
  }

  /** The names save gives the files, in order, or None when formatting
      the first name raises (then nothing is written). */
  method SaveNames(files: seq<seq<byte>>, ext: Option<string>) returns (names: Option<seq<string>>)
    ensures names.None? <==> files != [] && NameSuffix(ext).None?
    ensures names.Some? ==> |names.value| == |files|
    ensures names.Some? ==>
              forall k :: 0 <= k < |files| ==>
                NameSuffix(ext).Some? && names.value[k] == TestCaseName(k, |files|, NameSuffix(ext).value)
  {
    var e := if ext.None? then "exe" else ext.value;
    var counter := 0;
    var width := |Decimal(|files|)|;
    var acc: seq<string> := [];
    for j := 0 to |files|
      invariant counter == j == |acc|
      invariant j > 0 ==> NameSuffix(ext).Some?
      invariant forall k :: 0 <= k < j ==> acc[k] == TestCaseName(k, |files|, NameSuffix(ext).value)
    {
      var suffix := FormatTail(e);
      if suffix.None? {
        return None;
      }
      acc := acc + ["test_case_" + ZeroPad(counter, width) + "." + suffix.value];
      counter := counter + 1;
    }
    names := Some(acc);
  }

  /** Every counter below the number of test cases pads to exactly the
      digit count of that number, so all names have the same length. */
  lemma TestCaseNameLength(counter: nat, count: nat, suffix: string)
    requires counter < count
    ensures |TestCaseName(counter, count, suffix)| == 10 + |Decimal(count)| + 1 + |suffix|
  {
    DecimalLengthMonotone(counter, count);
  }

  /** Distinct counters give distinct names. */
  lemma TestCaseNamesDistinct(a: nat, b: nat, count: nat, suffix: string)
    requires a < count && b < count && a != b
    ensures TestCaseName(a, count, suffix) != TestCaseName(b, count, suffix)
  {
    var w := |Decimal(count)|;
    DecimalLengthMonotone(a, count);
    DecimalLengthMonotone(b, count);
    var pa, pb := ZeroPad(a, w), ZeroPad(b, w);
    if TestCaseName(a, count, suffix) == TestCaseName(b, count, suffix) {
      var na, nb := TestCaseName(a, count, suffix), TestCaseName(b, count, suffix);
      assert |pa| == w && |pb| == w;
      var pre, suf := "test_case_", "." + suffix;
      assert |pre| == 10;
      assert na == pre + pa + suf && nb == pre + pb + suf;
      assert (pre + pa + suf)[10..10 + w] == pa;
      assert (pre + pb + suf)[10..10 + w] == pb;
      ZeroPadRoundTrip(a, w);
      ZeroPadRoundTrip(b, w);
    }
  }

  /** The main block: split, then save only when at least one test case
      was produced. */
  method GenerateTestCases(payload: seq<byte>, size: nat, ext: Option<string>)
    returns (cases: seq<seq<byte>>, names: Option<seq<string>>)
    requires size > 0
    ensures forall k :: 0 <= k < |PieceLengths(|payload|, size)| ==> PieceLengths(|payload|, size)[k] <= |payload|
    ensures cases == Prefixes(payload, PieceLengths(|payload|, size))
    ensures cases != [] <==> |payload| >= size
    ensures forall k :: 0 <= k < |cases| ==> |cases[k]| <= |payload| && cases[k] == payload[..|cases[k]|]
    ensures names.None? <==> cases != [] && NameSuffix(ext).None?
    ensures names.Some? ==> |names.value| == |cases|
    ensures names.Some? ==>
              forall k :: 0 <= k < |cases| ==>
                NameSuffix(ext).Some? && names.value[k] == TestCaseName(k, |cases|, NameSuffix(ext).value)
  {
    cases := Split(payload, size);
    SplitShape(payload, size);
    names := Some([]);
    if |cases| > 0 {
      names := SaveNames(cases, ext);
    }
  }
}
