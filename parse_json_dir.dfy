/** The JSON-list collector: from each file's text take the single-line
    span matched by `(\[.*\])`, parse it as a JSON list, and count the rows
    of the parsed lists; with no rows only a warning is produced. Reading
    files and json.loads are supplied from outside. */
module ParseJsonDir {
  import opened Common

  /** `re.search(r'(\[.*\])', content).group(0)`: from the leftmost `[`
      that has a `]` after it on the same line, to the last `]` on that line. */
  function ArrayBody(content: string): (r: Option<string>)
    ensures r.None? <==> forall i, j :: !SpanAt(content, '[', ']', 0, i, j)
    ensures r.Some? ==> |r.value| >= 2 && r.value[0] == '[' && r.value[|r.value| - 1] == ']'
    ensures r.Some? ==> forall m :: 0 <= m < |r.value| ==> r.value[m] != '\n'
    ensures r.Some? ==>
              exists i: nat, j: nat ::
                && SpanAt(content, '[', ']', 0, i, j) && r.value == content[i..j + 1]
                && (forall i': nat, j': nat :: i' < i ==> !SpanAt(content, '[', ']', 0, i', j'))
                && (forall j': nat :: j < j' ==> !SpanAt(content, '[', ']', 0, i, j'))
  {
    FindSpan(content, '[', ']', 0)
  }

  /** The data frames appended to df_list, one per file whose span parsed;
      a JSON list of n elements gives a frame of n rows. */
  function Frames(contents: seq<string>, parseList: string -> Option<seq<Json>>): seq<seq<Json>> {
    if contents == [] then []
    else
      var last := contents[|contents| - 1];
      Frames(contents[..|contents| - 1], parseList)
        + match ArrayBody(last)
          case None => []
          case Some(body) => if parseList(body).Some? then [parseList(body).value] else []
  }

  function TotalRows(frames: seq<seq<Json>>): nat {
    if frames == [] then 0 else TotalRows(frames[..|frames| - 1]) + |frames[|frames| - 1]|
  }

  /** The main loop: append each parsed frame and add its rows to row_count. */
  method CountRows(contents: seq<string>, parseList: string -> Option<seq<Json>>)
    returns (dfList: seq<seq<Json>>, rowCount: nat)
    ensures dfList == Frames(contents, parseList)
    ensures rowCount == TotalRows(dfList)
  {
    dfList, rowCount := [], 0;
    for i := 0 to |contents|
      invariant dfList == Frames(contents[..i], parseList)
      invariant rowCount == TotalRows(dfList)
    {
      assert contents[..i + 1][..i] == contents[..i];
      var body := ArrayBody(contents[i]);
      if body.Some? {
        var obj := parseList(body.value);
        if obj.Some? {
          dfList := dfList + [obj.value];
          rowCount := rowCount + |dfList[|dfList| - 1]|;
        }
      }
    }
    assert contents[..|contents|] == contents;
  }

  lemma {:induction false} FramesAppend(a: seq<string>, b: seq<string>, parseList: string -> Option<seq<Json>>)
    ensures Frames(a + b, parseList) == Frames(a, parseList) + Frames(b, parseList)
    decreases |b|
  {
    if b == [] {
      assert a + b == a;
    } else {
      assert (a + b)[..|a + b| - 1] == a + b[..|b| - 1];
      FramesAppend(a, b[..|b| - 1], parseList);
    }
  }

  /** A file without a span, or whose span does not parse, adds no frame
      and leaves row_count unchanged. */
  lemma SkippedFileAddsNothing(a: seq<string>, c: string, parseList: string -> Option<seq<Json>>)
    requires ArrayBody(c).None? || parseList(ArrayBody(c).value).None?
    ensures Frames(a + [c], parseList) == Frames(a, parseList)
    ensures TotalRows(Frames(a + [c], parseList)) == TotalRows(Frames(a, parseList))
  {
    assert (a + [c])[..|a + [c]| - 1] == a;
  }

  /** row_count is zero exactly when every parsed list is empty. */
  lemma {:induction false} NoRowsIffEmptyFrames(frames: seq<seq<Json>>)
    ensures TotalRows(frames) == 0 <==> forall k :: 0 <= k < |frames| ==> frames[k] == []
  {
    if frames != [] {
      NoRowsIffEmptyFrames(frames[..|frames| - 1]);
    }
  }

  /** Everything after the directory walk: count the rows, then either warn
      or run the table steps in their fixed order. */
  method ParseContents(contents: seq<string>, parseList: string -> Option<seq<Json>>, o: TableOptions)
    returns (rows: seq<seq<Json>>, finish: Finish)
    ensures rows == Frames(contents, parseList)
    ensures finish.NoDataWarning? <==> forall k :: 0 <= k < |rows| ==> rows[k] == []
    ensures finish == Postprocess(TotalRows(rows), o)
  {
    var rowCount;
    rows, rowCount := CountRows(contents, parseList);
    NoRowsIffEmptyFrames(rows);
    finish := Postprocess(rowCount, o);
  }
}
