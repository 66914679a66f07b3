# Recon utilities — a verified Dafny model

This project models the core of a small collection of reconnaissance
scripts:

- **inProfiles**. Walks directories of Burp Suite item exports (XML). In
  every `<response>` it finds the JSON body and keeps each `MiniProfile`
  entry. It cleans the person's name, picks a first and a last name and
  infers a corporate e-mail address from a pattern (`first.last`, `first`,
  `last`, `flast`). The people it collects then go through a fixed
  post-processing pipeline: de-duplicate, query, sort, drop columns, CSV.
- **dspand** (mlwr-tools). Cuts a payload into growing prefixes, one
  every `n` bytes, and names them `test_case_<zero-padded counter>.<ext>`.
- **burp2json**. Base64-decodes every response of a Burp export, takes
  the text from the first line that starts (after blanks) with `{`, and
  keeps the responses whose parsed JSON is truthy.
- **parseJSONFromDir**. Walks directories, takes from each file the first
  single-line `[...]` span, counts the rows of the parsed lists, and runs
  the same post-processing pipeline.
- **webDiscovery**. Takes the second comma-separated field of every line
  of a top-sites list. From the subdomains of those hosts it adds every
  dot-separated label, then ranks the names by frequency, as
  `Counter.most_common()` does. The `uri` wordlist type exits with status 1.
- **extract-emails**. Finds every address matched by the scripts'
  address regular expression in each file, lower-cases them, and unions
  them over all files. A missing file contributes nothing.

Modules:

- `Common`: character classes, lower-casing, splitting and joining,
  trimming, decimal rendering, the JSON value type and Python truthiness,
  the single-line bracket span that `re.search` finds for `{.+}` and
  `(\[.*\])`, and the post-processing pipeline.
- `DirWalk`: the directory search.
- One module per script: `Dspand`, `Burp2Json`, `ParseJsonDir`,
  `WebDiscovery`, `InProfiles`, `ExtractEmails`.

Where a script runs a loop, the model is a method with a loop, proved
equal to a recursive specification function. Properties of the script
are proved as lemmas about that function.

## Model

| member | source | states |
|---|---|---|
| DirWalk.SearchFiles | inProfiles/inProfiles.py:88-100 | A path that is not a directory fails the assertion. Otherwise the result is the directory's files in order, and with `recursive` also the files directly inside each sub-directory, because the nested call drops `recursive`. |
| DirWalk.SearchRoots | parseJSONFromDir/parseJSONFromDir.py:107-109 | The file list exists iff every root is a directory; it is the concatenation of the per-root listings in root order. |
| DirWalk.NonRecursiveListing | parseJSONFromDir/parseJSONFromDir.py:87-99 | Without `recursive`, the listing is exactly the directory's own files in order. |
| DirWalk.RecursiveListingMembers | parseJSONFromDir/parseJSONFromDir.py:97-98 | With `recursive`, a node is listed iff it is a file of the directory or a file directly inside one of its sub-directories. |
| DirWalk.RecursiveWalkDepthTwo | inProfiles/inProfiles.py:98-99 | The recursive search never looks deeper than two levels. Two trees that agree to depth two give the same listing. |
| Dspand.Split | mlwr-tools/dspand.rb:25-38 | The pieces are the payload prefixes whose lengths are given by the step walk of the loop, including its end-of-data reset. |
| Dspand.SplitShape | mlwr-tools/dspand.rb:28-35 | Data shorter than `n` gives no piece. Otherwise there are `len/n + 1` pieces and the last one is the whole payload. Lengths never decrease. When `len` is a multiple of `n`, the whole payload appears twice at the end. |
| Dspand.SaveNames | mlwr-tools/dspand.rb:40-53 | Formatting fails (ArgumentError, nothing written) iff there is a piece and the extension (`exe` when none is given) holds a `%` directive Ruby rejects. Otherwise there is one name per piece: the k-th is `test_case_`, k zero-padded to the width of the piece count, a dot and the formatted extension. |
| Dspand.FormatTail | mlwr-tools/dspand.rb:45 | An extension without `%` is kept as it is; formatting never lengthens it. |
| Dspand.FormatTailEscape | mlwr-tools/dspand.rb:45 | Doubling every `%` of a text gives an extension that formats back to that text. |
| Dspand.FormatTailExamples | mlwr-tools/dspand.rb:45 | `a%%b` gives `a%b`; `%d` and a trailing `%` raise; `%` before a line feed is kept. |
| Dspand.TestCaseNameLength | mlwr-tools/dspand.rb:43-45 | Every name has the same length, fixed by the number of digits of the piece count. |
| Dspand.TestCaseNamesDistinct | mlwr-tools/dspand.rb:44-49 | Different counters give different file names, so no test case overwrites another. |
| Dspand.GenerateTestCases | mlwr-tools/dspand.rb:117-124 | The pieces are exactly those of `Split`, each a prefix of the payload, and there are some iff the payload is at least one step long. Saving fails iff there are pieces and the extension does not format. Otherwise the k-th name is `TestCaseName(k, number of pieces, formatted extension)`. |
| Burp2Json.ExtractJson | burp2json/burp2json.py:10-16 | None iff no line starts (after blanks) with `{`. Otherwise the result is the suffix from the leftmost such line start. |
| Burp2Json.ExtractedStartsWithBrace | burp2json/burp2json.py:11-14 | The extracted text is a suffix of the response and, after leading blanks, begins with `{`. |
| Burp2Json.BraceAfterTextNeverMatches | burp2json/burp2json.py:11 | A `{` preceded on its line by a non-blank character is never where a match starts. |
| Burp2Json.DecodeAndConvert | burp2json/burp2json.py:18-30 | An element without text raises the uncaught TypeError, and a text with a non-ASCII character the uncaught ValueError. Otherwise a base64, UTF-8 or JSON failure, or no JSON start, gives None, and anything else gives the parse of the extracted text. |
| Burp2Json.CollectResponses | burp2json/burp2json.py:42-47 | The collected list is the responses whose decoded JSON is present and truthy, in document order, or the uncaught error of the first element that raises one. |
| Burp2Json.KeptStops | burp2json/burp2json.py:43-45 | Once an element has raised, later elements do not change the outcome. |
| Burp2Json.KeptProperties | burp2json/burp2json.py:42-47 | Collection over two runs of elements is the collection of the first followed by that of the second; the first uncaught error wins. Every kept value is truthy. At most one value is kept per response. |
| Burp2Json.KeptDropsFalsy | burp2json/burp2json.py:46-47 | A response that fails to decode or decodes to a falsy value adds nothing. |
| Burp2Json.MissingTextStops | burp2json/burp2json.py:44-45 | A response element without text ends the script: no list is written, whatever follows. |
| ParseJsonDir.ArrayBody | parseJSONFromDir/parseJSONFromDir.py:120 | None iff no `[` has a later `]` on its line. Otherwise the result is the leftmost-greedy single-line span: it starts with `[`, ends with `]` and contains no line feed. |
| ParseJsonDir.CountRows | parseJSONFromDir/parseJSONFromDir.py:116-130 | The frame list is the parsed lists of the files that have a span that parses, in order. The row count is the sum of their lengths. |
| ParseJsonDir.SkippedFileAddsNothing | parseJSONFromDir/parseJSONFromDir.py:121-125 | A file without a span, or whose span does not parse, changes neither the frames nor the count. |
| ParseJsonDir.NoRowsIffEmptyFrames | parseJSONFromDir/parseJSONFromDir.py:132 | The row count is zero iff every parsed list is empty. |
| ParseJsonDir.ParseContents | parseJSONFromDir/parseJSONFromDir.py:116-147 | The warning is issued iff every parsed list is empty. Otherwise the table goes through the post-processing pipeline. |
| Common.Postprocess | parseJSONFromDir/parseJSONFromDir.py:132-147 | The warning is issued iff there are no rows. Otherwise the steps start with de-duplication and end with the CSV of the chosen columns, in strictly increasing stage order. Query, sort and drop each appear iff their option is given. |
| Common.TrimIsMiddle | webDiscovery/webDiscovery.py:81 | `strip` keeps a contiguous middle of the text verbatim, and everything it removes before and after that middle is a dropped character. |
| Common.TrimEnds | inProfiles/inProfiles.py:141 | The removed runs are maximal: what is left is empty or neither starts nor ends with a dropped character (for `strip('.')`, a dot). |
| WebDiscovery.SecondField | webDiscovery/webDiscovery.py:81 | None (the index error) iff the trimmed line has no comma. Otherwise the result is the comma-free text between the first and second commas. |
| WebDiscovery.SecondFieldParts | webDiscovery/webDiscovery.py:81 | Splitting on commas yields a second part iff there is a comma; that part contains no comma and sits between the first two commas. |
| WebDiscovery.HostField | webDiscovery/webDiscovery.py:81 | The list fails iff some stripped line has no comma. Otherwise it has one host per line, each the second field of its line. |
| WebDiscovery.ExpandSubs | webDiscovery/webDiscovery.py:86-89 | The extended list is the subdomains followed by the labels of each dotted subdomain in order. The loop also visits the labels it appends, and they add nothing. |
| WebDiscovery.PartsHaveNoDot | webDiscovery/webDiscovery.py:88-89 | No appended label contains a dot, which is why the loop terminates. |
| WebDiscovery.ExpandedLength | webDiscovery/webDiscovery.py:87-89 | The extended list is longer by the number of labels of the dotted subdomains. |
| WebDiscovery.CountOccurrences | webDiscovery/webDiscovery.py:90 | The counter holds exactly the names of the list, each with its number of occurrences, and records names in first-seen order. |
| WebDiscovery.GenSubList | webDiscovery/webDiscovery.py:85-90 | The ranking is the most-common order of the expanded subdomain list. |
| WebDiscovery.MostCommonCorrect | webDiscovery/webDiscovery.py:90 | Each name of the list appears once in the ranking, with its exact count; the counts add up to the list length. Order is by count descending, ties by first occurrence. |
| WebDiscovery.SortRankedCorrect | webDiscovery/webDiscovery.py:90 | The stable sort by count yields a ranked permutation of the distinct names. |
| WebDiscovery.OutputLineReadsBack | webDiscovery/webDiscovery.py:100-104 | With `--count`, each line is the decimal count, a blank and the name, and the count reads back from its digits. |
| WebDiscovery.Run | webDiscovery/webDiscovery.py:93-104 | `uri` exits with status 1. `sub` crashes iff some line has no second field; otherwise it prints one line per ranked name. |
| InProfiles.StripAccents | inProfiles/inProfiles.py:103-120 | After decomposition every non-ASCII character is dropped, so the result is pure ASCII. |
| InProfiles.StripAccentsOfAscii | inProfiles/inProfiles.py:117-118 | ASCII text is unchanged when decomposition leaves ASCII alone. |
| InProfiles.InferEmail | inProfiles/inProfiles.py:123-141 | Any empty argument fails the assertion. An unknown pattern raises the value error. Otherwise the result is the lower-cased address built from the pattern's user part, accent-stripped and dot-trimmed. |
| InProfiles.InferEmailShape | inProfiles/inProfiles.py:141 | A produced address is the local part, `@` and the lower-cased domain. The local part is ASCII with no capital letters and does not start or end with a dot. |
| InProfiles.FirstLastOfAscii | inProfiles/inProfiles.py:132-133 | For plain ASCII names the `first.last` address is `name.surname@domain`, lower-cased. |
| InProfiles.InferEmailOfAscii | inProfiles/inProfiles.py:129-141 | For ASCII names whose user part has no outer dot, each pattern gives its lower-cased user part, `@` and the lower-cased domain: `name.surname`, the first letter of the name followed by the surname, the name, or the surname. |
| InProfiles.InferEmailStripsAccents | inProfiles/inProfiles.py:117-141 | With a decomposition that splits é into e and a combining accent, "José", `first` and "Acme.io" give `jose@acme.io`. |
| InProfiles.NamePrefix | inProfiles/inProfiles.py:199-206 | None iff the text is empty or starts with a bracket, quote, hyphen or bar. Otherwise the result is the longest prefix free of those characters. |
| InProfiles.Surname | inProfiles/inProfiles.py:214-218 | The last name is one of the tokens after the first. It is the token before the last exactly when the last token is a junior suffix and that token differs from the first name; otherwise it is the last token. |
| InProfiles.SurnameExamples | inProfiles/inProfiles.py:214-218 | A junior suffix is replaced by the previous token, except when that token equals the first name or there is no middle token. |
| InProfiles.OnlyMiniProfilesEmit | inProfiles/inProfiles.py:190-193 | Only objects with the MiniProfile `$type` produce a person; other objects are skipped. |
| InProfiles.EmittedPerson | inProfiles/inProfiles.py:199-222 | An emitted person's full name is the noise-free prefix of "first last" and has at least two words. The first name is its first word and the last name is `Surname` of its words, one of the later words. Both are non-empty. Occupation and public identifier are copied from the entry, and the e-mail is what `InferEmail` gives for the first name and last name. |
| InProfiles.EmittedEmail | inProfiles/inProfiles.py:221-222 | An emitted person's e-mail is an address at the configured domain: an ASCII local part with no capital letters and no outer dot, then `@` and the lower-cased domain. |
| InProfiles.ValidConfigNeverFailsEmail | inProfiles/inProfiles.py:221-222 | With a known pattern and a non-empty domain, inferring the e-mail never aborts the run. |
| InProfiles.ResponseTextHonoursFlag | inProfiles/inProfiles.py:173-174 | Any flag other than `true` leaves the text as it is. `true` yields the decoded text. |
| InProfiles.PlainResponseDecodedAsWritten | inProfiles/inProfiles.py:173 | As written, a response marked `base64="false"` is still decoded, and the run crashes when its text is not base64. |
| InProfiles.PlainResponseStopsFile | inProfiles/inProfiles.py:172-174 | As written, a plain response marked `base64="false"` whose text is not base64 stops the processing of its file, whatever responses follow. |
| InProfiles.ResponseBody | inProfiles/inProfiles.py:175 | None iff no `{` has a `}` after at least one character on the same line. Otherwise the result is the text's span from the leftmost such `{` to the last `}` on its line: it starts with `{`, ends with `}`, has at least three characters and no line feed. |
| InProfiles.ProcessEntries | inProfiles/inProfiles.py:190-224 | The people after the entries of a response are the people before plus the emitted persons, or the crash of the first entry that aborts. |
| InProfiles.EntriesOnlyAppend | inProfiles/inProfiles.py:190-224 | Processing entries only appends. Every appended person is emitted by one of the entries. |
| InProfiles.AbortStops | inProfiles/inProfiles.py:190-224 | Once an entry crashes the run, no later entry changes the outcome. |
| InProfiles.ProcessResponse | inProfiles/inProfiles.py:172-224 | The text is decoded whenever the `base64` attribute is non-empty, as written, and a decoding failure crashes. A response without a brace span, without parseable JSON or without `included` is skipped. A body that is not an object crashes. Otherwise its entries are processed. |
| InProfiles.ProcessDocs | inProfiles/inProfiles.py:158-227 | Files that are not XML or whose root is not `items` are skipped. The outcome is that of processing every response of every file in order, each with the as-written flag test. |
| InProfiles.FailedDocStops | inProfiles/inProfiles.py:158-227 | A crash in one file ends the run: later files do not change the outcome. |
| InProfiles.Run | inProfiles/inProfiles.py:149-244 | Any root that is not a directory crashes. A dry run stops after listing. Otherwise the people collected over every file, with each response decoded whenever its `base64` attribute is non-empty, go through the post-processing pipeline, or the run crashes. |
| ExtractEmails.MatchEndCorrect | extract-emails/extract_emails.py:10 | At a position, a match exists iff some split into local part, `@`, label, dot, letters and an optional dotted suffix fits the pattern. The end found is such a split, and the longest one. |
| ExtractEmails.MatchShape | extract-emails/extract_emails.py:10 | A match contains exactly one `@` and is not followed by a word character. |
| ExtractEmails.ScanSound | extract-emails/extract_emails.py:10 | Every reported span is a match at its start, and spans do not overlap. |
| ExtractEmails.ScanLeftmost | extract-emails/extract_emails.py:10 | No match starts before the first span, in a gap between spans, or after the last span, so the scan misses nothing. |
| ExtractEmails.FoundEmails | extract-emails/extract_emails.py:10-11 | Every returned address is lower-case and holds exactly one `@`. |
| ExtractEmails.UniqueEmails | extract-emails/extract_emails.py:21-24 | The set is the union of the addresses found per file; a missing file contributes nothing. |
| ExtractEmails.UnionMembers | extract-emails/extract_emails.py:21-24 | An address is in the union iff some file yields it. |
| ExtractEmails.PrintReport | extract-emails/extract_emails.py:12-31 | The "no addresses" message appears iff every file yields none. Otherwise the report lists the union. |

## Left out

- File reading, XML parsing, base64, UTF-8 and JSON decoding are
  parameters (`Env`, `Decoders`, `parseList`, `xml`). `UnicodeDecodeError`
  and other file errors are not modelled.
- Command-line parsing, logging, printing, the `--silent` switch and the
  writing of files are left out. Only which names and contents would be
  written is modelled.
- pandas: only the order and presence of the post-processing steps
  (`Common.Postprocess`) is modelled. Frames, de-duplication, queries and
  the CSV text are not.
- webDiscovery's download of the top-sites archives (network and zip) is
  left out. The lines and `tldextract`'s subdomain function are parameters.
- InProfiles.StripAccents: NFD decomposition is a per-character parameter.
  Unicode tables are not modelled.
- Common.IsSpace, Common.Words, Common.LowerStr, Common.Trim: `\s`,
  `str.split()`, `strip()` and `lower()` are modelled on ASCII only (the
  six usual whitespace characters and U+001C to U+001F). Non-ASCII
  whitespace such as U+0085 or U+00A0, and non-ASCII case mappings, are
  not.
- InProfiles.ProcessResponse: a `<response>` without a `base64`
  attribute (KeyError) or without text (TypeError) is not modelled; the
  response text is always a string. A text that is not ASCII makes
  `b64decode` raise, which the model counts as a decoding failure: both
  stop the script.
- Dspand.FormatTail: Ruby's error messages are not distinguished; every
  rejected directive is one ArgumentError.
- InProfiles.InferEmail: lower-cases ASCII letters only. The domain keeps
  its non-ASCII characters unchanged.
- Dspand.Split: requires a positive step. A step of zero or below makes
  Ruby's `step` raise, which is not modelled.
- ExtractEmails.UniqueEmails: a set has no order. The order in which
  Python prints it is not modelled.
- The `\b` word boundaries and character classes of the address pattern
  are modelled on ASCII.
- The repository's other tools (uncidr, quote/unquote, extract-tld) are
  not part of this model.

## Findings

| source | as written | input that shows it | evidently intended | confidence | as-written member | corrected member |
|---|---|---|---|---|---|---|
| inProfiles/inProfiles.py:173 | The test is the truthiness of the attribute's string, so every non-empty value, `"false"` included, triggers base64 decoding | `<response base64="false">` whose body is plain HTTP text: decoding fails and the whole run stops | decode only when the attribute is `"true"` | medium — not executed | InProfiles.PlainResponseDecodedAsWritten | InProfiles.ResponseTextHonoursFlag |
