/** The LinkedIn profile parser: walk the root directories, read the Burp
    saved items of each file, find the JSON object in every response, turn
    each MiniProfile entry of its `included` list into a person record with
    an inferred e-mail address, and hand the records to the table steps.
    XML parsing, base64, UTF-8 and JSON decoding and the Unicode
    decomposition table are supplied from outside. */
module InProfiles {
  import opened Common
  import DirWalk

  // ---------------------------------------------------------------------
  // strip_accents

  /** `encode('ascii', 'ignore')`: the ASCII characters of s, in order. */
  function KeepAscii(s: string): (r: string)
    ensures AllAscii(r)
    ensures AllAscii(s) ==> r == s
  {
    if s == [] then [] else (if IsAscii(s[0]) then [s[0]] else []) + KeepAscii(s[1..])
  }

  /** NFD of a string as the concatenation of the canonical decompositions
      of its characters. Canonical reordering only moves combining marks,
      none of which is ASCII, so it cannot change what KeepAscii keeps. */
  function Decompose(text: string, nfd: char -> string): string {
    if text == [] then [] else nfd(text[0]) + Decompose(text[1..], nfd)
  }

  /** Every ASCII character is its own canonical decomposition. */
  predicate FixesAscii(nfd: char -> string) {
    forall c :: IsAscii(c) ==> nfd(c) == [c]
  }

  /** strip_accents(text): decompose, then drop everything outside ASCII. */
  function StripAccents(text: string, nfd: char -> string): (r: string)
    ensures AllAscii(r)
  {
    KeepAscii(Decompose(text, nfd))
  }

  lemma {:induction false} DecomposeAscii(text: string, nfd: char -> string)
    requires FixesAscii(nfd) && AllAscii(text)
    ensures Decompose(text, nfd) == text
  {
    if text != [] {
      DecomposeAscii(text[1..], nfd);
    }
  }

  /** An all-ASCII text comes back unchanged. */
  lemma StripAccentsOfAscii(text: string, nfd: char -> string)
    requires FixesAscii(nfd) && AllAscii(text)
    ensures StripAccents(text, nfd) == text
  {
    DecomposeAscii(text, nfd);
  }

  // ---------------------------------------------------------------------
  // infer_email

  const EmailPatterns: seq<string> := ["first.last", "first", "last", "flast"]

  datatype EmailError = AssertionFailed | UnexpectedPattern

  /** The user part chosen by the pattern; "" is the initial value that
      the pattern check leaves unreachable. */
  function UserPart(name: string, surname: string, pattern: string): (r: string)
    requires name != []
    ensures pattern in EmailPatterns && surname != [] ==> r != []
  {
    if pattern == "first.last" then name + "." + surname
    else if pattern == "flast" then [name[0]] + surname
    else if pattern == "first" then name
    else if pattern == "last" then surname
    else ""
  }

  lemma {:induction false} AllAsciiAppend(a: string, b: string)
    requires AllAscii(a) && AllAscii(b)
    ensures AllAscii(a + b)
  {
    forall i | 0 <= i < |a + b| ensures IsAscii((a + b)[i]) {
      if i < |a| { assert (a + b)[i] == a[i]; } else { assert (a + b)[i] == b[i - |a|]; }
    }
  }

  lemma AllAsciiSlice(s: string, i: nat, j: nat)
    requires AllAscii(s) && i <= j <= |s|
    ensures AllAscii(s[i..j])
  {
    forall k | 0 <= k < j - i ensures IsAscii(s[i..j][k]) { assert s[i..j][k] == s[i + k]; }
  }

  /** Neither the first nor the last character is a dot. */
  predicate NoOuterDot(t: string) {
    t == [] || (t[0] != '.' && t[|t| - 1] != '.')
  }

  /** `s.strip('.')` keeps an ASCII text ASCII and leaves no outer dot. */
  function StripDots(s: string): (t: string)
    ensures AllAscii(s) ==> AllAscii(t)
    ensures NoOuterDot(t)
  {
    var l := TrimLeft(s, IsDot);
    var t := TrimRight(l, IsDot);
    assert t != [] ==> t[0] == l[0];
    t
  }

  /** `strip_accents(user).strip('.')`: ASCII, and without an outer dot. */
  function LocalPart(user: string, nfd: char -> string): (t: string)
    ensures AllAscii(t)
    ensures NoOuterDot(t)
  {
    var a := StripAccents(user, nfd);
    assert AllAscii(a);
    StripDots(a)
  }

  /** infer_email(name, surname, domain, pattern): the assertion on empty
      arguments, the pattern check, then
      `(strip_accents(user).strip('.') + "@" + domain).lower()`. */
  function InferEmail(name: string, surname: string, domain: string, pattern: string, nfd: char -> string)
    : (r: Result<string, EmailError>)
    ensures r == Failure(AssertionFailed) <==> name == [] || surname == [] || domain == [] || pattern == []
    ensures r == Failure(UnexpectedPattern) <==>
              name != [] && surname != [] && domain != [] && pattern != [] && pattern !in EmailPatterns
  {
    if name == [] || surname == [] || domain == [] || pattern == [] then Failure(AssertionFailed)
    else if pattern !in EmailPatterns then Failure(UnexpectedPattern)
    else Success(LowerStr(LocalPart(UserPart(name, surname, pattern), nfd) + "@" + domain))
  }

  /** r is an address at `domain`: an ASCII local part with no capital
      letter and no outer dot, then "@" and the lower-cased domain. */
  ghost predicate AddressFor(r: string, domain: string) {
    exists local: string ::
      && r == local + "@" + LowerStr(domain)
      && AllAscii(local) && NoOuterDot(local)
      && (forall i :: 0 <= i < |local| ==> !IsUpper(local[i]))
  }

  /** Lower-casing an ASCII local part without outer dots joined to a
      domain by "@". */
  lemma LowerAddress(t: string, domain: string)
    requires AllAscii(t) && NoOuterDot(t)
    ensures |LowerStr(t + "@" + domain)| == |t| + 1 + |domain|
    ensures AddressFor(LowerStr(t + "@" + domain), domain)
  {
    LowerStrAround(t, '@', domain);
    LowerLocalPart(t);
    AddressOfParts(LowerStr(t), domain);
  }

  lemma AddressOfParts(local: string, domain: string)
    requires AllAscii(local) && NoOuterDot(local)
    requires forall i :: 0 <= i < |local| ==> !IsUpper(local[i])
    ensures AddressFor(local + ['@'] + LowerStr(domain), domain)
  {
    assert local + ['@'] + LowerStr(domain) == local + "@" + LowerStr(domain);
  }

  lemma LowerLocalPart(t: string)
    requires AllAscii(t) && NoOuterDot(t)
    ensures AllAscii(LowerStr(t))
    ensures forall i :: 0 <= i < |t| ==> !IsUpper(LowerStr(t)[i])
    ensures NoOuterDot(LowerStr(t))
  {
  }

  /** Every inferred address is an ASCII, lower-case local part with no
      leading or trailing dot, then "@" and the lower-cased domain. */
  lemma InferEmailShape(name: string, surname: string, domain: string, pattern: string, nfd: char -> string)
    requires InferEmail(name, surname, domain, pattern, nfd).Success?
    ensures AddressFor(InferEmail(name, surname, domain, pattern, nfd).value, domain)
  {
    LowerAddress(LocalPart(UserPart(name, surname, pattern), nfd), domain);
  }

  lemma TrimWithoutDots(s: string)
    requires s != [] && s[0] != '.' && s[|s| - 1] != '.'
    ensures Trim(s, IsDot) == s
  {
  }

  lemma LocalPartOfAscii(user: string, nfd: char -> string)
    requires FixesAscii(nfd) && AllAscii(user)
    requires user != [] && user[0] != '.' && user[|user| - 1] != '.'
    ensures LocalPart(user, nfd) == user
  {
    StripAccentsOfAscii(user, nfd);
    TrimWithoutDots(user);
  }

  lemma {:induction false} LowerJoin(name: string, surname: string, domain: string)
    ensures LowerStr(name + "." + surname + "@" + domain)
            == LowerStr(name) + "." + LowerStr(surname) + "@" + LowerStr(domain)
  {
    LowerStrAround(surname, '@', domain);
    LowerStrAround(name, '.', surname + ['@'] + domain);
    Regroup(name, '.', surname, '@', domain);
    Regroup(LowerStr(name), '.', LowerStr(surname), '@', LowerStr(domain));
  }

  lemma Regroup(a: string, c: char, b: string, d: char, e: string)
    ensures a + [c] + (b + [d] + e) == a + [c] + b + [d] + e
  {
  }

  /** With ASCII names whose outer characters are not dots, the
      first.last address is the lower-cased "name.surname@domain". */
  lemma FirstLastOfAscii(name: string, surname: string, domain: string, nfd: char -> string)
    requires FixesAscii(nfd) && AllAscii(name) && AllAscii(surname)
    requires name != [] && surname != [] && domain != []
    requires name[0] != '.' && surname[|surname| - 1] != '.'
    ensures InferEmail(name, surname, domain, "first.last", nfd)
            == Success(LowerStr(name) + "." + LowerStr(surname) + "@" + LowerStr(domain))
  {
    FirstLastLocalPart(name, surname, nfd);
    LowerJoin(name, surname, domain);
  }

  lemma FirstLastLocalPart(name: string, surname: string, nfd: char -> string)
    requires FixesAscii(nfd) && AllAscii(name) && AllAscii(surname)
    requires name != [] && surname != []
    requires name[0] != '.' && surname[|surname| - 1] != '.'
    ensures LocalPart(UserPart(name, surname, "first.last"), nfd) == name + "." + surname
  {
    var user := name + "." + surname;
    assert AllAscii(".");
    AllAsciiAppend(name, ".");
    AllAsciiAppend(name + ".", surname);
    assert user[0] == name[0] && user[|user| - 1] == surname[|surname| - 1];
    LocalPartOfAscii(user, nfd);
  }

  /** With ASCII names (and a user part with no outer dot, so that the dot
      stripping keeps it whole), each of the four patterns gives the
      lower-cased user part the pattern describes, "@" and the lower-cased
      domain. */
  lemma InferEmailOfAscii(name: string, surname: string, domain: string, pattern: string, nfd: char -> string)
    requires FixesAscii(nfd) && AllAscii(name) && AllAscii(surname)
    requires name != [] && surname != [] && domain != [] && pattern in EmailPatterns
    requires NoOuterDot(UserPart(name, surname, pattern))
    ensures InferEmail(name, surname, domain, pattern, nfd)
            == Success(LowerStr(UserPart(name, surname, pattern)) + "@" + LowerStr(domain))
    ensures pattern == "first.last" ==>
              InferEmail(name, surname, domain, pattern, nfd)
              == Success(LowerStr(name) + "." + LowerStr(surname) + "@" + LowerStr(domain))
    ensures pattern == "flast" ==>
              InferEmail(name, surname, domain, pattern, nfd)
              == Success([ToLower(name[0])] + LowerStr(surname) + "@" + LowerStr(domain))
    ensures pattern == "first" ==>
              InferEmail(name, surname, domain, pattern, nfd) == Success(LowerStr(name) + "@" + LowerStr(domain))
    ensures pattern == "last" ==>
              InferEmail(name, surname, domain, pattern, nfd) == Success(LowerStr(surname) + "@" + LowerStr(domain))
  {
    var user := UserPart(name, surname, pattern);
    UserPartAscii(name, surname, pattern);
    AsciiAddress(user, domain, nfd);
    if pattern == "first.last" {
      LowerStrAround(name, '.', surname);
    } else if pattern == "flast" {
      LowerStrAppend([name[0]], surname);
    }
  }

  lemma UserPartAscii(name: string, surname: string, pattern: string)
    requires name != [] && AllAscii(name) && AllAscii(surname)
    ensures AllAscii(UserPart(name, surname, pattern))
  {
    if pattern == "first.last" {
      assert AllAscii(".");
      AllAsciiAppend(name, ".");
      AllAsciiAppend(name + ".", surname);
    } else if pattern == "flast" {
      AllAsciiAppend([name[0]], surname);
    }
  }

  lemma AsciiAddress(user: string, domain: string, nfd: char -> string)
    requires FixesAscii(nfd) && AllAscii(user) && user != [] && NoOuterDot(user)
    ensures LowerStr(LocalPart(user, nfd) + "@" + domain) == LowerStr(user) + "@" + LowerStr(domain)
  {
    LocalPartOfAscii(user, nfd);
    LowerStrAround(user, '@', domain);
  }

  /** A decomposition table that splits e-acute into e and the combining
      acute accent and leaves every other character alone. */
  function SampleNfd(c: char): string {
    if c == '\U{E9}' then "e\U{301}" else [c]
  }

  lemma DecomposeSample()
    ensures Decompose("Jos\U{E9}", SampleNfd) == "Jose\U{301}"
  {
    var user := "Jos\U{E9}";
    assert Decompose(user[4..], SampleNfd) == "";
    assert Decompose(user[3..], SampleNfd) == "e\U{301}";
    assert Decompose(user[2..], SampleNfd) == "se\U{301}";
    assert Decompose(user[1..], SampleNfd) == "ose\U{301}";
  }

  lemma KeepAsciiSample()
    ensures KeepAscii("Jose\U{301}") == "Jose"
  {
    var d := "Jose\U{301}";
    assert KeepAscii(d[5..]) == "";
    assert KeepAscii(d[4..]) == "";
    assert KeepAscii(d[3..]) == "e";
    assert KeepAscii(d[2..]) == "se";
    assert KeepAscii(d[1..]) == "ose";
  }

  lemma LowerSample()
    ensures LowerStr("Jose" + "@" + "Acme.io") == "jose@acme.io"
  {
    var a := "Jose" + "@" + "Acme.io";
    var l := LowerStr(a);
    assert |a| == 12;
    assert a[0] == 'J' && a[1] == 'o' && a[2] == 's' && a[3] == 'e' && a[4] == '@' && a[5] == 'A';
    assert a[6] == 'c' && a[7] == 'm' && a[8] == 'e' && a[9] == '.' && a[10] == 'i' && a[11] == 'o';
    assert l[0] == 'j' && l[1] == 'o' && l[2] == 's' && l[3] == 'e' && l[4] == '@' && l[5] == 'a';
    assert l[6] == 'c' && l[7] == 'm' && l[8] == 'e' && l[9] == '.' && l[10] == 'i' && l[11] == 'o';
  }

  /** Accents are dropped: "José" with the first pattern gives "jose". */
  lemma InferEmailStripsAccents()
    ensures InferEmail("Jos\U{E9}", "Silva", "Acme.io", "first", SampleNfd) == Success("jose@acme.io")
  {
    var name := "Jos\U{E9}";
    assert "first" in EmailPatterns by { assert EmailPatterns[1] == "first"; }
    assert "first" != "first.last" && "first" != "flast";
    assert UserPart(name, "Silva", "first") == name;
    DecomposeSample();
    KeepAsciiSample();
    assert StripAccents(name, SampleNfd) == "Jose";
    TrimWithoutDots("Jose");
    assert LocalPart(name, SampleNfd) == "Jose";
    LowerSample();
  }

  // ---------------------------------------------------------------------
  // The per-entry block

  /** A character of the class `[\[\]{}()'"\-|]`, where the name is cut. */
  predicate IsNoise(c: char) {
    || c == '[' || c == ']' || c == '{' || c == '}' || c == '(' || c == ')'
    || c == '\'' || c == '"' || c == '-' || c == '|'
  }

  function CleanLength(s: string): (n: nat)
    ensures n <= |s|
    ensures forall i :: 0 <= i < n ==> !IsNoise(s[i])
    ensures n == |s| || IsNoise(s[n])
  {
    if s == [] || IsNoise(s[0]) then 0 else 1 + CleanLength(s[1..])
  }

  /** `re.search(r'^[^\[\]{}()\'"\-|]+', s)`: the longest prefix without a
      noise character, or None when s starts with one. */
  function NamePrefix(s: string): (r: Option<string>)
    ensures r.None? <==> s == [] || IsNoise(s[0])
    ensures r.Some? ==>
              && 0 < |r.value| <= |s| && r.value == s[..|r.value|]
              && (forall i :: 0 <= i < |r.value| ==> !IsNoise(r.value[i]))
              && (|r.value| == |s| || IsNoise(s[|r.value|]))
  {
    var n := CleanLength(s);
    if n == 0 then None else Some(s[..n])
  }

  /** The last token lower-cased is "jr.", "jr" or "junior". */
  predicate IsJuniorSuffix(t: string) {
    LowerStr(t) in ["jr.", "jr", "junior"]
  }

  /** The surname: the second-to-last token when the last one is a junior
      suffix and the second-to-last differs from the first token,
      otherwise the last token. */
  function Surname(tokens: seq<string>): (r: string)
    requires |tokens| >= 2
    ensures exists k :: 1 <= k < |tokens| && r == tokens[k]
    ensures r != tokens[|tokens| - 1] ==>
              && IsJuniorSuffix(tokens[|tokens| - 1])
              && r == tokens[|tokens| - 2] && r != tokens[0]
    ensures IsJuniorSuffix(tokens[|tokens| - 1]) && tokens[|tokens| - 2] != tokens[0] ==>
              r == tokens[|tokens| - 2]
    ensures !(IsJuniorSuffix(tokens[|tokens| - 1]) && tokens[|tokens| - 2] != tokens[0]) ==>
              r == tokens[|tokens| - 1]
  {
    var last, prev := tokens[|tokens| - 1], tokens[|tokens| - 2];
    if IsJuniorSuffix(last) && prev != tokens[0] then
      assert |tokens| > 2;
      prev
    else
      last
  }

  /** "John Jr" keeps "Jr" (the token before it is the first name);
      "John Smith Jr." gives "Smith"; "Ana Ana JUNIOR" keeps "JUNIOR". */
  lemma SurnameExamples()
    ensures Surname(["John", "Jr"]) == "Jr"
    ensures Surname(["John", "Smith", "Jr."]) == "Smith"
    ensures Surname(["Ana", "Ana", "JUNIOR"]) == "JUNIOR"
  {
    assert LowerStr("Jr.") == "jr.";
  }

  const MiniProfileType: string := "com.linkedin.voyager.identity.shared.MiniProfile"

  datatype Person = Person(
    fullName: string,
    firstName: string,
    lastName: string,
    occupation: Json,
    publicIdentifier: Json,
    email: string)

  /** Why the script stops with a traceback. */
  datatype Crash =
    | NotAnObject        // `.keys()` on a value that is not a dict
    | NotIterable        // `for entry in` a number, a boolean or null
    | MissingKey(key: string)
    | NotAString         // `+` on a name that is not a string
    | EmailFailed(error: EmailError)
    | Undecodable        // b64decode or the UTF-8 decode raised
    | NotADirectory      // the assertion in search_files

  datatype EntryOutcome = Skipped | Emit(person: Person) | Abort(crash: Crash)

  datatype Config = Config(domain: string, pattern: string)

  predicate IsMiniProfile(m: map<string, Json>) {
    "$type" in m && m["$type"] == JString(MiniProfileType)
  }

  /** `entry['firstName'] + ' ' + entry['lastName']`, evaluated left to right. */
  function NameText(m: map<string, Json>): (r: Result<string, Crash>)
    ensures r.Success? <==> "firstName" in m && m["firstName"].JString? && "lastName" in m && m["lastName"].JString?
    ensures r.Success? ==> r.value == m["firstName"].s + " " + m["lastName"].s
  {
    if "firstName" !in m then Failure(MissingKey("firstName"))
    else if !m["firstName"].JString? then Failure(NotAString)
    else if "lastName" !in m then Failure(MissingKey("lastName"))
    else if !m["lastName"].JString? then Failure(NotAString)
    else Success(m["firstName"].s + " " + m["lastName"].s)
  }

  /** One pass of `for entry in obj['included']`: skip entries that are not
      MiniProfiles, cut the name, skip names of fewer than two tokens, then
      build the record; a missing key or a failed e-mail inference stops
      the script. */
  function ParseEntry(entry: Json, cfg: Config, nfd: char -> string): EntryOutcome {
    if !entry.JObject? then Abort(NotAnObject)
    else if !IsMiniProfile(entry.members) then Skipped
    else
      match NameText(entry.members)
      case Failure(c) => Abort(c)
      case Success(text) => FromNameText(entry.members, text, cfg, nfd)
  }

  /** The entry's name text is cut at the first noise character. */
  function FromNameText(m: map<string, Json>, text: string, cfg: Config, nfd: char -> string): EntryOutcome {
    match NamePrefix(text)
    case None => Skipped
    case Some(fullName) => FromFullName(m, fullName, cfg, nfd)
  }

  /** The cut name is split into tokens and the record is built. */
  function FromFullName(m: map<string, Json>, fullName: string, cfg: Config, nfd: char -> string): EntryOutcome {
    var fields := Words(fullName);
    if |fields| < 2 then Skipped
    else if "occupation" !in m then Abort(MissingKey("occupation"))
    else if "publicIdentifier" !in m then Abort(MissingKey("publicIdentifier"))
    else
      var first, last := fields[0], Surname(fields);
      match InferEmail(first, last, cfg.domain, cfg.pattern, nfd)
      case Failure(e) => Abort(EmailFailed(e))
      case Success(email) =>
        Emit(Person(fullName, first, last, m["occupation"], m["publicIdentifier"], email))
  }

  /** Only MiniProfile objects produce a person; every other object is
      skipped. */
  lemma OnlyMiniProfilesEmit(entry: Json, cfg: Config, nfd: char -> string)
    ensures ParseEntry(entry, cfg, nfd).Emit? ==> entry.JObject? && IsMiniProfile(entry.members)
    ensures entry.JObject? && !IsMiniProfile(entry.members) ==> ParseEntry(entry, cfg, nfd) == Skipped
  {
  }

  /** What an emitted record holds: the full name is the longest noise-free
      prefix of "firstName lastName", with at least two tokens; the first
      name is its first token and the surname the token the junior rule
      picks; occupation and public identifier are copied from the entry;
      the address is the one inferred from the first name and surname. */
  lemma EmittedPerson(entry: Json, cfg: Config, nfd: char -> string)
    requires ParseEntry(entry, cfg, nfd).Emit?
    ensures var p := ParseEntry(entry, cfg, nfd).person;
            var m := entry.members;
            var ws := Words(p.fullName);
            && NamePrefix(m["firstName"].s + " " + m["lastName"].s) == Some(p.fullName)
            && |ws| >= 2 && p.firstName == ws[0]
            && (exists k :: 1 <= k < |ws| && p.lastName == ws[k])
            && p.lastName == Surname(ws)
            && p.firstName != [] && p.lastName != []
            && p.occupation == m["occupation"] && p.publicIdentifier == m["publicIdentifier"]
            && InferEmail(p.firstName, p.lastName, cfg.domain, cfg.pattern, nfd) == Success(p.email)
  {
    var m := entry.members;
    var fullName := NamePrefix(NameText(m).value).value;
    assert ParseEntry(entry, cfg, nfd) == FromFullName(m, fullName, cfg, nfd);
    EmittedFromFullName(m, fullName, cfg, nfd);
  }

  /** The address of an emitted record is an address at the configured domain. */
  lemma EmittedEmail(entry: Json, cfg: Config, nfd: char -> string)
    requires ParseEntry(entry, cfg, nfd).Emit?
    ensures AddressFor(ParseEntry(entry, cfg, nfd).person.email, cfg.domain)
  {
    var m := entry.members;
    var fullName := NamePrefix(NameText(m).value).value;
    assert ParseEntry(entry, cfg, nfd) == FromFullName(m, fullName, cfg, nfd);
    EmittedFromFullName(m, fullName, cfg, nfd);
    var ws := Words(fullName);
    InferEmailShape(ws[0], Surname(ws), cfg.domain, cfg.pattern, nfd);
  }

  lemma EmittedFromFullName(m: map<string, Json>, fullName: string, cfg: Config, nfd: char -> string)
    requires FromFullName(m, fullName, cfg, nfd).Emit?
    ensures var p := FromFullName(m, fullName, cfg, nfd).person;
            var ws := Words(fullName);
            && p.fullName == fullName && |ws| >= 2
            && p.firstName == ws[0] && p.lastName == Surname(ws)
            && "occupation" in m && "publicIdentifier" in m
            && p.occupation == m["occupation"] && p.publicIdentifier == m["publicIdentifier"]
            && InferEmail(ws[0], Surname(ws), cfg.domain, cfg.pattern, nfd) == Success(p.email)
  {
  }

  /** For a MiniProfile with string names, the entry is skipped exactly
      when its name starts with a noise character or its cut name has
      fewer than two tokens. */
  lemma SkippedNames(entry: Json, cfg: Config, nfd: char -> string)
    requires entry.JObject? && IsMiniProfile(entry.members)
    requires NameText(entry.members).Success?
    ensures var text := NameText(entry.members).value;
            ParseEntry(entry, cfg, nfd) == Skipped <==>
              IsNoise(text[0]) || |Words(text[..CleanLength(text)])| < 2
  {
  }

  /** With the command line's pattern choices and a non-empty domain, e-mail
      inference never fails: both tokens are non-empty. */
  lemma ValidConfigNeverFailsEmail(entry: Json, cfg: Config, nfd: char -> string)
    requires cfg.pattern in EmailPatterns && cfg.domain != []
    ensures !ParseEntry(entry, cfg, nfd).Abort? || !ParseEntry(entry, cfg, nfd).crash.EmailFailed?
  {
    if entry.JObject? && IsMiniProfile(entry.members) && NameText(entry.members).Success? {
      var text := NameText(entry.members).value;
      if NamePrefix(text).Some? {
        var ws := Words(NamePrefix(text).value);
        if |ws| >= 2 {
          var k :| 1 <= k < |ws| && Surname(ws) == ws[k];
          assert ws[0] != [] && ws[k] != [];
        }
      }
    }
  }

  // ---------------------------------------------------------------------
  // Responses and the main loop

  /** A `<response>` element: its `base64` attribute and its text. */
  datatype Response = Response(base64: string, text: string)

  /** A parsed XML file: the root tag and the `.//response` elements. */
  datatype Items = Items(tag: string, responses: seq<Response>)

  /** The library functions the script calls. */
  datatype Env = Env(
    nfd: char -> string,
    base64: string -> Option<seq<byte>>,
    utf8: seq<byte> -> Option<string>,
    json: string -> Option<Json>)

  /** `if response.attrib['base64']:` tests the attribute string for
      truthiness, so Burp's `base64="false"` also selects decoding. */
  predicate DecodeFlagAsWritten(attr: string) {
    attr != []
  }

  /** The evidently intended test: decode only what Burp marked as base64. */
  predicate DecodeFlag(attr: string) {
    attr == "true"
  }

  function DecodeText(r: Response, decode: bool, env: Env): Result<string, Crash> {
    if !decode then Success(r.text)
    else
      match env.base64(r.text)
      case None => Failure(Undecodable)
      case Some(bytes) =>
        match env.utf8(bytes)
        case None => Failure(Undecodable)
        case Some(text) => Success(text)
  }

  /** The response text as the script computes it. */
  function ResponseTextAsWritten(r: Response, env: Env): Result<string, Crash> {
    DecodeText(r, DecodeFlagAsWritten(r.base64), env)
  }

  /** The response text with the intended flag test. */
  function ResponseText(r: Response, env: Env): Result<string, Crash> {
    DecodeText(r, DecodeFlag(r.base64), env)
  }

  /** As written, a plain-text response marked base64="false" goes through
      the base64 decoder: with a decoder that rejects the text the script
      stops instead of reading the response. */
  lemma PlainResponseDecodedAsWritten(t: string, env: Env)
    requires env.base64(t).None?
    ensures ResponseTextAsWritten(Response("false", t), env) == Failure(Undecodable)
  {
  }

  /** With the intended test, a response not marked base64 is read as it
      is, and one marked "true" is decoded. */
  lemma ResponseTextHonoursFlag(r: Response, env: Env)
    ensures r.base64 != "true" ==> ResponseText(r, env) == Success(r.text)
    ensures r.base64 == "true" && env.base64(r.text).Some? && env.utf8(env.base64(r.text).value).Some? ==>
              ResponseText(r, env) == Success(env.utf8(env.base64(r.text).value).value)
  {
  }

  /** `re.search(r'{.+}', text)`: from the leftmost `{` that has a `}` at
      least two characters on along the same line, to the last `}` there. */
  function ResponseBody(text: string): (r: Option<string>)
    ensures r.Some? ==> |r.value| >= 3 && r.value[0] == '{' && r.value[|r.value| - 1] == '}'
    ensures r.Some? ==> forall m :: 0 <= m < |r.value| ==> r.value[m] != '\n'
    ensures r.None? <==> forall i, j :: !SpanAt(text, '{', '}', 1, i, j)
    ensures r.Some? ==>
              exists i: nat, j: nat ::
                && SpanAt(text, '{', '}', 1, i, j) && r.value == text[i..j + 1]
                && (forall i': nat, j': nat :: i' < i ==> !SpanAt(text, '{', '}', 1, i', j'))
                && (forall j': nat :: j < j' ==> !SpanAt(text, '{', '}', 1, i, j'))
  {
    FindSpan(text, '{', '}', 1)
  }

  /** The entries `for entry in obj['included']` visits. A dict or a string
      is iterated too, but its items are strings, on which `.keys()`
      fails; an empty one visits nothing. */
  function IncludedEntries(v: Json): (r: Result<seq<Json>, Crash>)
    ensures r.Success? && !v.JArray? ==> r.value == []
  {
    match v
    case JArray(items) => Success(items)
    case JObject(m) => if m == map[] then Success([]) else Failure(NotAnObject)
    case JString(s) => if s == [] then Success([]) else Failure(NotAnObject)
    case _ => Failure(NotIterable)
  }

  /** `people` after one more entry: append an emitted record, stop on a crash. */
  function Absorb(acc: Result<seq<Person>, Crash>, o: EntryOutcome): Result<seq<Person>, Crash> {
    match acc
    case Failure(c) => Failure(c)
    case Success(ps) =>
      match o
      case Skipped => Success(ps)
      case Emit(p) => Success(ps + [p])
      case Abort(c) => Failure(c)
  }

  /** `people` after the entry loop over `entries`, starting from `people`. */
  function AfterEntries(people: seq<Person>, entries: seq<Json>, cfg: Config, nfd: char -> string)
    : Result<seq<Person>, Crash>
  {
    if entries == [] then Success(people)
    else Absorb(AfterEntries(people, entries[..|entries| - 1], cfg, nfd), ParseEntry(entries[|entries| - 1], cfg, nfd))
  }

  /** `people` after one response. */
  function AfterResponse(people: seq<Person>, r: Response, cfg: Config, env: Env): Result<seq<Person>, Crash> {
    match ResponseTextAsWritten(r, env)
    case Failure(c) => Failure(c)
    case Success(text) =>
      match ResponseBody(text)
      case None => Success(people)
      case Some(body) =>
        match env.json(body)
        case None => Success(people)
        case Some(obj) =>
          if !obj.JObject? then Failure(NotAnObject)
          else if "included" !in obj.members then Success(people)
          else
            match IncludedEntries(obj.members["included"])
            case Failure(c) => Failure(c)
            case Success(entries) => AfterEntries(people, entries, cfg, env.nfd)
  }

  function AfterResponses(people: seq<Person>, rs: seq<Response>, cfg: Config, env: Env): Result<seq<Person>, Crash> {
    if rs == [] then Success(people)
    else
      match AfterResponses(people, rs[..|rs| - 1], cfg, env)
      case Failure(c) => Failure(c)
      case Success(ps) => AfterResponse(ps, rs[|rs| - 1], cfg, env)
  }

  /** A file that is not XML, or whose root is not `items`, is skipped. */
  function AfterDoc(people: seq<Person>, doc: Option<Items>, cfg: Config, env: Env): Result<seq<Person>, Crash> {
    if doc.None? || doc.value.tag != "items" then Success(people)
    else AfterResponses(people, doc.value.responses, cfg, env)
  }

  function AfterDocs(docs: seq<Option<Items>>, cfg: Config, env: Env): Result<seq<Person>, Crash> {
    if docs == [] then Success([])
    else
      match AfterDocs(docs[..|docs| - 1], cfg, env)
      case Failure(c) => Failure(c)
      case Success(ps) => AfterDoc(ps, docs[|docs| - 1], cfg, env)
  }

  /** The inner loop: append the record of every emitting entry. */
  method ProcessEntries(people: seq<Person>, entries: seq<Json>, cfg: Config, nfd: char -> string)
    returns (r: Result<seq<Person>, Crash>)
    ensures r == AfterEntries(people, entries, cfg, nfd)
  {
    var acc := people;
    for i := 0 to |entries|
      invariant AfterEntries(people, entries[..i], cfg, nfd) == Success(acc)
    {
      var outcome := ParseEntry(entries[i], cfg, nfd);
      AfterEntriesStep(people, entries, i, cfg, nfd);
      if outcome.Abort? {
        AbortStops(people, entries[..i + 1], entries[i + 1..], cfg, nfd);
        TakeDrop(entries, i + 1);
        return Failure(outcome.crash);
      }
      if outcome.Emit? {
        acc := acc + [outcome.person];
      }
    }
    TakeAll(entries);
    return Success(acc);
  }

  lemma AfterEntriesStep(people: seq<Person>, entries: seq<Json>, i: nat, cfg: Config, nfd: char -> string)
    requires i < |entries|
    ensures AfterEntries(people, entries[..i + 1], cfg, nfd)
            == Absorb(AfterEntries(people, entries[..i], cfg, nfd), ParseEntry(entries[i], cfg, nfd))
  {
    TakeTake(entries, i);
  }

  lemma {:induction false} AfterEntriesAppend(people: seq<Person>, a: seq<Json>, b: seq<Json>, cfg: Config, nfd: char -> string)
    ensures AfterEntries(people, a + b, cfg, nfd) ==
              match AfterEntries(people, a, cfg, nfd)
              case Failure(c) => Failure(c)
              case Success(ps) => AfterEntries(ps, b, cfg, nfd)
    decreases |b|
  {
    if b == [] {
      assert a + b == a;
    } else {
      InitOfAppend(a, b);
      AfterEntriesAppend(people, a, b[..|b| - 1], cfg, nfd);
    }
  }

  lemma AbortStops(people: seq<Person>, a: seq<Json>, b: seq<Json>, cfg: Config, nfd: char -> string)
    requires AfterEntries(people, a, cfg, nfd).Failure?
    ensures AfterEntries(people, a + b, cfg, nfd) == AfterEntries(people, a, cfg, nfd)
  {
    AfterEntriesAppend(people, a, b, cfg, nfd);
  }

  /** The body of the response loop. */
  method ProcessResponse(people: seq<Person>, r: Response, cfg: Config, env: Env)
    returns (res: Result<seq<Person>, Crash>)
    ensures res == AfterResponse(people, r, cfg, env)
  {
    var text := ResponseTextAsWritten(r, env);
    if text.Failure? {
      return Failure(text.error);
    }
    var body := ResponseBody(text.value);
    if body.None? {
      return Success(people);
    }
    var obj := env.json(body.value);
    if obj.None? {
      return Success(people);
    }
    if !obj.value.JObject? {
      return Failure(NotAnObject);
    }
    if "included" !in obj.value.members {
      return Success(people);
    }
    var entries := IncludedEntries(obj.value.members["included"]);
    if entries.Failure? {
      return Failure(entries.error);
    }
    res := ProcessEntries(people, entries.value, cfg, env.nfd);
  }

  /** The loop over files and, inside it, over their responses. */
  method ProcessDocs(docs: seq<Option<Items>>, cfg: Config, env: Env) returns (res: Result<seq<Person>, Crash>)
    ensures res == AfterDocs(docs, cfg, env)
  {
    var people: seq<Person> := [];
    for i := 0 to |docs|
      invariant AfterDocs(docs[..i], cfg, env) == Success(people)
    {
      AfterDocsStep(docs, i, cfg, env);
      var doc := docs[i];
      if doc.None? || doc.value.tag != "items" {
        continue;
      }
      var rs := doc.value.responses;
      ghost var start := people;
      for j := 0 to |rs|
        invariant AfterResponses(start, rs[..j], cfg, env) == Success(people)
      {
        AfterResponsesStep(start, rs, j, cfg, env);
        var step := ProcessResponse(people, rs[j], cfg, env);
        if step.Failure? {
          FailedResponseStops(start, rs[..j + 1], rs[j + 1..], cfg, env);
          TakeDrop(rs, j + 1);
          FailedDocStops(docs[..i + 1], docs[i + 1..], cfg, env);
          TakeDrop(docs, i + 1);
          return step;
        }
        people := step.value;
      }
      TakeAll(rs);
    }
    TakeAll(docs);
    return Success(people);
  }

  lemma AfterResponsesStep(people: seq<Person>, rs: seq<Response>, j: nat, cfg: Config, env: Env)
    requires j < |rs|
    ensures AfterResponses(people, rs[..j], cfg, env).Failure? ==>
              AfterResponses(people, rs[..j + 1], cfg, env) == AfterResponses(people, rs[..j], cfg, env)
    ensures AfterResponses(people, rs[..j], cfg, env).Success? ==>
              AfterResponses(people, rs[..j + 1], cfg, env)
              == AfterResponse(AfterResponses(people, rs[..j], cfg, env).value, rs[j], cfg, env)
  {
    TakeTake(rs, j);
  }

  lemma AfterDocsStep(docs: seq<Option<Items>>, i: nat, cfg: Config, env: Env)
    requires i < |docs|
    ensures AfterDocs(docs[..i], cfg, env).Failure? ==>
              AfterDocs(docs[..i + 1], cfg, env) == AfterDocs(docs[..i], cfg, env)
    ensures AfterDocs(docs[..i], cfg, env).Success? ==>
              AfterDocs(docs[..i + 1], cfg, env) == AfterDoc(AfterDocs(docs[..i], cfg, env).value, docs[i], cfg, env)
  {
    TakeTake(docs, i);
  }

  lemma {:induction false} FailedResponseStops(people: seq<Person>, a: seq<Response>, b: seq<Response>, cfg: Config, env: Env)
    requires AfterResponses(people, a, cfg, env).Failure?
    ensures AfterResponses(people, a + b, cfg, env) == AfterResponses(people, a, cfg, env)
    decreases |b|
  {
    if b == [] {
      assert a + b == a;
    } else {
      InitOfAppend(a, b);
      FailedResponseStops(people, a, b[..|b| - 1], cfg, env);
    }
  }

  /** As written, a file whose first response is plain text marked
      base64="false", and which the base64 decoder rejects, stops the run
      whatever follows it. */
  lemma PlainResponseStopsFile(people: seq<Person>, t: string, rest: seq<Response>, cfg: Config, env: Env)
    requires env.base64(t).None?
    ensures AfterResponses(people, [Response("false", t)] + rest, cfg, env) == Failure(Undecodable)
  {
    var first := [Response("false", t)];
    PlainResponseDecodedAsWritten(t, env);
    assert first[..0] == [];
    assert AfterResponses(people, first, cfg, env) == Failure(Undecodable);
    FailedResponseStops(people, first, rest, cfg, env);
  }

  lemma {:induction false} FailedDocStops(a: seq<Option<Items>>, b: seq<Option<Items>>, cfg: Config, env: Env)
    requires AfterDocs(a, cfg, env).Failure?
    ensures AfterDocs(a + b, cfg, env) == AfterDocs(a, cfg, env)
    decreases |b|
  {
    if b == [] {
      assert a + b == a;
    } else {
      InitOfAppend(a, b);
      FailedDocStops(a, b[..|b| - 1], cfg, env);
    }
  }

  /** The entry loop only appends: the list it starts from stays a prefix,
      and every record it adds was emitted by one of the entries. */
  lemma {:induction false} EntriesOnlyAppend(people: seq<Person>, entries: seq<Json>, cfg: Config, nfd: char -> string)
    requires AfterEntries(people, entries, cfg, nfd).Success?
    ensures var ps := AfterEntries(people, entries, cfg, nfd).value;
            && |people| <= |ps| && ps[..|people|] == people
            && forall k :: |people| <= k < |ps| ==>
                 exists e :: e in entries && ParseEntry(e, cfg, nfd) == Emit(ps[k])
  {
    if entries != [] {
      var init, last := entries[..|entries| - 1], entries[|entries| - 1];
      EntriesOnlyAppend(people, init, cfg, nfd);
      var ps := AfterEntries(people, init, cfg, nfd).value;
      var qs := AfterEntries(people, entries, cfg, nfd).value;
      forall k | |people| <= k < |qs|
        ensures exists e :: e in entries && ParseEntry(e, cfg, nfd) == Emit(qs[k])
      {
        if k < |ps| {
          var e :| e in init && ParseEntry(e, cfg, nfd) == Emit(ps[k]);
          assert e in entries;
        } else {
          assert last in entries;
        }
      }
    }
  }

  /** An entry that is an object but not a MiniProfile leaves `people`
      unchanged. */
  lemma OtherEntryChangesNothing(people: seq<Person>, entries: seq<Json>, e: Json, cfg: Config, nfd: char -> string)
    requires e.JObject? && !IsMiniProfile(e.members)
    ensures AfterEntries(people, entries + [e], cfg, nfd) == AfterEntries(people, entries, cfg, nfd)
  {
    assert (entries + [e])[..|entries|] == entries;
  }

  // ---------------------------------------------------------------------
  // The script

  datatype Outcome =
    | Crashed(crash: Crash)
    | DryRun(files: seq<DirWalk.Node>)
    | Finished(people: seq<Person>, finish: Finish)

  /** The script after argument parsing: collect the files of every root,
      stop after listing them in dry-run mode, otherwise parse every file
      (`xml` is the XML parser, None when it raises) and finish with the
      warning or the table steps. */
  method Run(roots: seq<DirWalk.Node>, recursive: bool, dryRun: bool, xml: DirWalk.Node -> Option<Items>,
             cfg: Config, env: Env, opts: TableOptions)
    returns (out: Outcome)
    ensures (exists k :: 0 <= k < |roots| && roots[k].File?) ==> out == Crashed(NotADirectory)
    ensures (forall k :: 0 <= k < |roots| ==> roots[k].Dir?) ==>
              var files := DirWalk.RootsListing(roots, recursive);
              var docs := seq(|files|, k requires 0 <= k < |files| => xml(files[k]));
              out == if dryRun then DryRun(files)
                     else match AfterDocs(docs, cfg, env)
                          case Failure(c) => Crashed(c)
                          case Success(people) => Finished(people, Postprocess(|people|, opts))
  {
    var found := DirWalk.SearchRoots(roots, recursive);
    if found.None? {
      return Crashed(NotADirectory);
    }
    var files := found.value;
    if dryRun {
      return DryRun(files);
    }
    var docs := seq(|files|, k requires 0 <= k < |files| => xml(files[k]));
    var res := ProcessDocs(docs, cfg, env);
    if res.Failure? {
      return Crashed(res.error);
    }
    out := Finished(res.value, Postprocess(|res.value|, opts));
  }
}
