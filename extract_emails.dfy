/** The e-mail extractor: scan each file's text for addresses with the
    pattern `\b[A-Za-z0-9._%+-]+@[A-Za-z0-9-]+\.[A-Za-z]{2,}(?:\.[A-Za-z]{1,})?\b`
    the way `re.findall` does (left to right, non-overlapping), lower-case
    them, and print the set of all addresses found. */
module ExtractEmails {
  import opened Common

  /** `[A-Za-z0-9._%+-]`, the local part. */
  predicate IsLocalChar(c: char) {
    IsLetter(c) || IsDigit(c) || c == '.' || c == '_' || c == '%' || c == '+' || c == '-'
  }

  /** `[A-Za-z0-9-]`, the label after the `@`. */
  predicate IsLabelChar(c: char) {
    IsLetter(c) || IsDigit(c) || c == '-'
  }

  /** `\b` at position p: exactly one of the characters around p is a word
      character (outside the text counts as not one). */
  predicate Boundary(s: string, p: nat)
    requires p <= |s|
  {
    (p > 0 && IsWordChar(s[p - 1])) != (p < |s| && IsWordChar(s[p]))
  }

  predicate AllIn(s: string, i: nat, j: nat, cls: char -> bool)
    requires i <= j <= |s|
  {
    forall k :: i <= k < j ==> cls(s[k])
  }

  /** The end of the longest run of `cls` characters from p. */
  function RunEnd(s: string, p: nat, cls: char -> bool): (q: nat)
    requires p <= |s|
    ensures p <= q <= |s|
    ensures AllIn(s, p, q, cls)
    ensures q == |s| || !cls(s[q])
    decreases |s| - p
  {
    if p == |s| || !cls(s[p]) then p else RunEnd(s, p + 1, cls)
  }

  lemma RunEndUnique(s: string, p: nat, q: nat, cls: char -> bool)
    requires p <= q <= |s| && AllIn(s, p, q, cls) && (q == |s| || !cls(s[q]))
    ensures RunEnd(s, p, cls) == q
  {
  }

  /** The pattern read directly: a match from p to e is a boundary, a
      non-empty local part ending at the `@` at q, a non-empty label ending
      at the dot at r, at least two letters ending at t, then either
      nothing or a dot and at least one letter, and a boundary at e. */
  predicate Shaped(s: string, p: nat, q: nat, r: nat, t: nat, e: nat) {
    && p < q < |s| && s[q] == '@' && AllIn(s, p, q, IsLocalChar)
    && q + 1 < r < |s| && s[r] == '.' && AllIn(s, q + 1, r, IsLabelChar)
    && r + 3 <= t <= |s| && AllIn(s, r + 1, t, IsLetter)
    && (e == t || (t + 2 <= e <= |s| && s[t] == '.' && AllIn(s, t + 1, e, IsLetter)))
    && Boundary(s, p) && Boundary(s, e)
  }

  /** Where the backtracking matcher ends a match that starts at p. Neither
      `[A-Za-z0-9._%+-]` nor `[A-Za-z0-9-]` holds the character that follows
      it, so only their longest runs can be followed by `@` and `.`; the
      letters after the dot run as far as they go, the optional group is
      tried first, and shorter runs of letters never sit on a boundary. */
  function MatchEnd(s: string, p: nat): (r: Option<nat>)
    requires p <= |s|
    ensures r.Some? ==> p < r.value <= |s|
  {
    if !Boundary(s, p) then None
    else
      var q := RunEnd(s, p, IsLocalChar);
      if q == p || q == |s| || s[q] != '@' then None
      else
        var r := RunEnd(s, q + 1, IsLabelChar);
        if r == q + 1 || r == |s| || s[r] != '.' then None
        else
          var t := RunEnd(s, r + 1, IsLetter);
          if t < r + 3 then None
          else if t + 1 < |s| && s[t] == '.' && IsLetter(s[t + 1]) && Boundary(s, RunEnd(s, t + 1, IsLetter)) then
            Some(RunEnd(s, t + 1, IsLetter))
          else if Boundary(s, t) then Some(t)
          else None
  }

  /** A shape fixes its parts: each run is a longest run, and the end is
      either the end of the second label or of the optional third. */
  lemma ShapedDetermined(s: string, p: nat, q: nat, r: nat, t: nat, e: nat)
    requires Shaped(s, p, q, r, t, e)
    ensures q == RunEnd(s, p, IsLocalChar)
    ensures r == RunEnd(s, q + 1, IsLabelChar)
    ensures t == RunEnd(s, r + 1, IsLetter)
    ensures e == t || (t + 1 < |s| && e == RunEnd(s, t + 1, IsLetter))
  {
    RunEndUnique(s, p, q, IsLocalChar);
    RunEndUnique(s, q + 1, r, IsLabelChar);
    assert IsLetter(s[t - 1]);
    RunEndUnique(s, r + 1, t, IsLetter);
    if e != t {
      assert IsLetter(s[e - 1]);
      RunEndUnique(s, t + 1, e, IsLetter);
    }
  }

  /** Any fitting split of the text from p is found, and ends no later
      than the match. */
  lemma ShapedFound(s: string, p: nat, q: nat, r: nat, t: nat, e: nat)
    requires p <= |s| && Shaped(s, p, q, r, t, e)
    ensures MatchEnd(s, p).Some? && e <= MatchEnd(s, p).value
  {
    ShapedDetermined(s, p, q, r, t, e);
    if e != t {
      assert s[t] == '.' && IsLetter(s[t + 1]);
    }
  }

  /** The match found fits the pattern, split at the ends of the runs. */
  lemma FoundShaped(s: string, p: nat)
    requires p <= |s| && MatchEnd(s, p).Some?
    ensures var q := RunEnd(s, p, IsLocalChar);
            var r := RunEnd(s, q + 1, IsLabelChar);
            Shaped(s, p, q, r, RunEnd(s, r + 1, IsLetter), MatchEnd(s, p).value)
  {
  }

  /** The matcher agrees with the pattern: there is a match at p exactly
      when some split of the text fits the pattern, the match found fits
      it, and no fitting match from p ends later. */
  lemma MatchEndCorrect(s: string, p: nat)
    requires p <= |s|
    ensures MatchEnd(s, p).None? <==> forall q: nat, r: nat, t: nat, e: nat :: !Shaped(s, p, q, r, t, e)
    ensures MatchEnd(s, p).Some? ==> exists q: nat, r: nat, t: nat :: Shaped(s, p, q, r, t, MatchEnd(s, p).value)
    ensures MatchEnd(s, p).Some? ==>
              forall q: nat, r: nat, t: nat, e: nat :: Shaped(s, p, q, r, t, e) ==> e <= MatchEnd(s, p).value
  {
    forall q: nat, r: nat, t: nat, e: nat | Shaped(s, p, q, r, t, e)
      ensures MatchEnd(s, p).Some? && e <= MatchEnd(s, p).value
    {
      ShapedFound(s, p, q, r, t, e);
    }
    if MatchEnd(s, p).Some? {
      FoundShaped(s, p);
      var q := RunEnd(s, p, IsLocalChar);
      var r := RunEnd(s, q + 1, IsLabelChar);
      assert Shaped(s, p, q, r, RunEnd(s, r + 1, IsLetter), MatchEnd(s, p).value);
    }
  }

  /** A match holds exactly one `@`, and the character after it, if any,
      is not a letter, digit or underscore. */
  lemma MatchShape(s: string, p: nat)
    requires p <= |s| && MatchEnd(s, p).Some?
    ensures var e := MatchEnd(s, p).value;
            && (exists a :: p <= a < e && s[a] == '@' && forall i :: p <= i < e && s[i] == '@' ==> i == a)
            && (e == |s| || !IsWordChar(s[e]))
  {
    MatchEndCorrect(s, p);
    var e := MatchEnd(s, p).value;
    var q: nat, r: nat, t: nat :| Shaped(s, p, q, r, t, e);
    forall i | p <= i < e && s[i] == '@' ensures i == q {
    }
    assert IsLetter(s[e - 1]);
  }

  /** Each position's match end lies after it and inside the table. */
  predicate ValidEnds(t: seq<Option<nat>>) {
    forall x :: 0 <= x < |t| && t[x].Some? ==> x < t[x].value < |t|
  }

  /** The match end at every position of the text, its end included. */
  function Ends(s: string): (t: seq<Option<nat>>)
    ensures |t| == |s| + 1 && ValidEnds(t)
  {
    seq(|s| + 1, x requires 0 <= x <= |s| => MatchEnd(s, x))
  }

  /** The scan over a table of match ends: take the match at p and go on
      from its end, or move one position on; the last position is the end
      of the text. */
  function ScanTable(t: seq<Option<nat>>, p: nat): (sp: seq<(nat, nat)>)
    requires ValidEnds(t) && p < |t|
    ensures forall k :: 0 <= k < |sp| ==> p <= sp[k].0 < sp[k].1 < |t|
    decreases |t| - p
  {
    if p == |t| - 1 then []
    else if t[p].Some? then [(p, t[p].value)] + ScanTable(t, t[p].value)
    else ScanTable(t, p + 1)
  }

  /** `re.findall` from position p: the matches, as (start, end) spans. */
  function Scan(s: string, p: nat): seq<(nat, nat)>
    requires p <= |s|
  {
    ScanTable(Ends(s), p)
  }

  /** Each span starts where the table has a match, and ends at its end. */
  predicate TableSpans(t: seq<Option<nat>>, sp: seq<(nat, nat)>) {
    forall k :: 0 <= k < |sp| ==> sp[k].0 < |t| && t[sp[k].0] == Some(sp[k].1)
  }

  /** The spans come left to right without overlapping. */
  predicate SpansOrdered(sp: seq<(nat, nat)>) {
    forall k :: 0 <= k < |sp| - 1 ==> sp[k].1 <= sp[k + 1].0
  }

  lemma ConsSpans(t: seq<Option<nat>>, p: nat, e: nat, rest: seq<(nat, nat)>)
    requires p < |t| && t[p] == Some(e)
    requires TableSpans(t, rest) && SpansOrdered(rest)
    requires rest != [] ==> e <= rest[0].0
    ensures TableSpans(t, [(p, e)] + rest) && SpansOrdered([(p, e)] + rest)
  {
    var sp := [(p, e)] + rest;
    assert forall k :: 0 < k < |sp| ==> sp[k] == rest[k - 1];
  }

  lemma {:induction false} ScanTableSound(t: seq<Option<nat>>, p: nat)
    requires ValidEnds(t) && p < |t|
    ensures TableSpans(t, ScanTable(t, p)) && SpansOrdered(ScanTable(t, p))
    decreases |t| - p
  {
    if p < |t| - 1 {
      if t[p].Some? {
        var e := t[p].value;
        ScanTableSound(t, e);
        assert ScanTable(t, p) == [(p, e)] + ScanTable(t, e);
        ConsSpans(t, p, e, ScanTable(t, e));
      } else {
        ScanTableSound(t, p + 1);
      }
    }
  }

  /** Each span is a match found at its start. */
  predicate SpansMatch(s: string, sp: seq<(nat, nat)>) {
    forall k :: 0 <= k < |sp| ==> sp[k].0 <= |s| && MatchEnd(s, sp[k].0) == Some(sp[k].1)
  }

  /** Every span is a match found at its start, and the spans come left
      to right without overlapping. */
  lemma ScanSound(s: string, p: nat)
    requires p <= |s|
    ensures SpansMatch(s, Scan(s, p)) && SpansOrdered(Scan(s, p))
  {
    ScanTableSound(Ends(s), p);
    var sp := Scan(s, p);
    forall k | 0 <= k < |sp|
      ensures sp[k].0 <= |s| && MatchEnd(s, sp[k].0) == Some(sp[k].1)
    {
      assert Ends(s)[sp[k].0] == Some(sp[k].1);
    }
  }

  /** The start of the next span after span k (the end n after the last
      one). */
  function NextStart(n: nat, sp: seq<(nat, nat)>, k: int): nat
    requires -1 <= k < |sp|
  {
    if k + 1 < |sp| then sp[k + 1].0 else n
  }

  /** The table has no match from p up to the first span, in a gap between
      two spans, or after the last one. */
  predicate TableGaps(t: seq<Option<nat>>, p: nat, sp: seq<(nat, nat)>)
    requires t != []
  {
    && (forall x: nat :: p <= x < NextStart(|t| - 1, sp, -1) && x < |t| ==> t[x].None?)
    && (forall k, x: nat :: 0 <= k < |sp| && sp[k].1 <= x < NextStart(|t| - 1, sp, k) && x < |t| ==>
          t[x].None?)
  }

  lemma {:induction false} ScanTableLeftmost(t: seq<Option<nat>>, p: nat)
    requires ValidEnds(t) && p < |t|
    ensures TableGaps(t, p, ScanTable(t, p))
    decreases |t| - p
  {
    if p < |t| - 1 {
      if t[p].Some? {
        var e := t[p].value;
        ScanTableLeftmost(t, e);
        assert ScanTable(t, p) == [(p, e)] + ScanTable(t, e);
        ConsGaps(t, p, e, ScanTable(t, e));
      } else {
        ScanTableLeftmost(t, p + 1);
      }
    }
  }

  lemma ConsGaps(t: seq<Option<nat>>, p: nat, e: nat, rest: seq<(nat, nat)>)
    requires t != [] && p < e
    requires TableGaps(t, e, rest)
    ensures TableGaps(t, p, [(p, e)] + rest)
  {
    var sp := [(p, e)] + rest;
    forall k, x: nat | 0 <= k < |sp| && sp[k].1 <= x < NextStart(|t| - 1, sp, k) && x < |t|
      ensures t[x].None?
    {
      assert sp[k].1 == (if k == 0 then e else rest[k - 1].1);
      assert NextStart(|t| - 1, sp, k) == NextStart(|t| - 1, rest, k - 1);
    }
  }

  /** No match starts between p and the first span, in a gap between two
      spans, or after the last one. */
  predicate NoMatchBetween(s: string, p: nat, sp: seq<(nat, nat)>) {
    && (forall x: nat :: p <= x < NextStart(|s|, sp, -1) && x <= |s| ==> MatchEnd(s, x).None?)
    && (forall k, x: nat :: 0 <= k < |sp| && sp[k].1 <= x < NextStart(|s|, sp, k) && x <= |s| ==>
          MatchEnd(s, x).None?)
  }

  /** findall takes the leftmost match every time: no match starts before
      the first span, in a gap between two spans, or after the last one. */
  lemma ScanLeftmost(s: string, p: nat)
    requires p <= |s|
    ensures NoMatchBetween(s, p, Scan(s, p))
  {
    var t := Ends(s);
    ScanTableLeftmost(t, p);
    assert forall x :: 0 <= x <= |s| ==> t[x] == MatchEnd(s, x);
  }

  /** `[email.lower() for email in re.findall(...)]`. */
  function FindEmails(content: string): (emails: seq<string>)
    ensures |emails| == |Scan(content, 0)|
  {
    var sp := Scan(content, 0);
    seq(|sp|, k requires 0 <= k < |sp| => LowerStr(content[sp[k].0..sp[k].1]))
  }

  /** Lower-casing keeps the one `@` of a text where it was. */
  lemma LowerKeepsOneAt(w: string, a: nat)
    requires a < |w| && w[a] == '@' && forall i :: 0 <= i < |w| && w[i] == '@' ==> i == a
    ensures var m := LowerStr(w);
            m[a] == '@' && forall i :: 0 <= i < |m| && m[i] == '@' ==> i == a
  {
  }

  /** A matched address, lower-cased, holds exactly one `@`. */
  lemma MatchedAddress(s: string, p: nat)
    requires p <= |s| && MatchEnd(s, p).Some?
    ensures var w := s[p..MatchEnd(s, p).value];
            exists a :: 0 <= a < |w| && w[a] == '@' && forall i :: 0 <= i < |w| && w[i] == '@' ==> i == a
  {
    var e := MatchEnd(s, p).value;
    MatchShape(s, p);
    var a :| p <= a < e && s[a] == '@' && forall i :: p <= i < e && s[i] == '@' ==> i == a;
    var w := s[p..e];
    assert w[a - p] == '@';
    forall i | 0 <= i < |w| && w[i] == '@' ensures i == a - p {
      assert w[i] == s[p + i];
    }
  }

  /** Every address returned is lower-case and holds exactly one `@`. */
  lemma FoundEmails(content: string, k: nat)
    requires k < |FindEmails(content)|
    ensures var m := FindEmails(content)[k];
            && (forall i :: 0 <= i < |m| ==> !IsUpper(m[i]))
            && (exists a :: 0 <= a < |m| && m[a] == '@' && forall i :: 0 <= i < |m| && m[i] == '@' ==> i == a)
  {
    ScanSound(content, 0);
    var sp := Scan(content, 0);
    var p, e := sp[k].0, sp[k].1;
    MatchedAddress(content, p);
    var w := content[p..e];
    var a :| 0 <= a < |w| && w[a] == '@' && forall i :: 0 <= i < |w| && w[i] == '@' ==> i == a;
    LowerKeepsOneAt(w, a);
    assert FindEmails(content)[k] == LowerStr(w);
  }

  /** extract_emails(file_path): a missing file gives no addresses
      (`content` is None); otherwise the addresses of its text. */
  function ExtractEmails(content: Option<string>): seq<string> {
    if content.None? then [] else FindEmails(content.value)
  }

  function Elements(xs: seq<string>): (r: set<string>)
    ensures forall m :: m in r <==> m in xs
  {
    set i | 0 <= i < |xs| :: xs[i]
  }

  /** The addresses of each file, in argument order. */
  function PerFile(files: seq<Option<string>>): (lists: seq<seq<string>>)
    ensures |lists| == |files|
  {
    seq(|files|, k requires 0 <= k < |files| => ExtractEmails(files[k]))
  }

  /** The union of the address lists. */
  function Union(lists: seq<seq<string>>): set<string> {
    if lists == [] then {}
    else Union(lists[..|lists| - 1]) + Elements(lists[|lists| - 1])
  }

  /** The main loop: `unique_emails.update(extract_emails(file_path))`. */
  method UniqueEmails(files: seq<Option<string>>) returns (unique: set<string>)
    ensures unique == Union(PerFile(files))
  {
    unique := {};
    ghost var lists := PerFile(files);
    for i := 0 to |files|
      invariant unique == Union(lists[..i])
    {
      assert lists[..i + 1][..i] == lists[..i];
      var emails := ExtractEmails(files[i]);
      assert emails == lists[i];
      unique := unique + Elements(emails);
    }
    assert lists[..|files|] == lists;
  }

  /** An address is in the union exactly when some list holds it. */
  lemma {:induction false} UnionMembers(lists: seq<seq<string>>, m: string)
    ensures m in Union(lists) <==> exists k :: 0 <= k < |lists| && m in lists[k]
  {
    if lists != [] {
      var init := lists[..|lists| - 1];
      UnionMembers(init, m);
      if exists k :: 0 <= k < |init| && m in init[k] {
        var k :| 0 <= k < |init| && m in init[k];
        assert lists[k] == init[k];
      }
      if exists k :: 0 <= k < |lists| && m in lists[k] {
        var k :| 0 <= k < |lists| && m in lists[k];
        if k < |init| {
          assert init[k] == lists[k];
        }
      }
    }
  }

  /** What the script prints: each unique address once, or the message
      that none was found. */
  datatype Report = Addresses(emails: set<string>) | NoneFound

  method PrintReport(files: seq<Option<string>>) returns (report: Report)
    ensures report == NoneFound <==> forall k :: 0 <= k < |files| ==> ExtractEmails(files[k]) == []
    ensures report.Addresses? ==> report.emails == Union(PerFile(files))
  {
    var unique := UniqueEmails(files);
    if unique == {} {
      report := NoneFound;
    } else {
      report := Addresses(unique);
    }
    forall k | 0 <= k < |files| && ExtractEmails(files[k]) != []
      ensures unique != {}
    {
      var lists := PerFile(files);
      assert lists[k] == ExtractEmails(files[k]) && ExtractEmails(files[k])[0] in lists[k];
      UnionMembers(lists, ExtractEmails(files[k])[0]);
    }
    if unique != {} {
      var m :| m in unique;
      UnionMembers(PerFile(files), m);
    }
  }
}
