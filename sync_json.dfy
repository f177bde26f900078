/** `syncJSONToHTML` of dev-tools/sync-json.js: re-embed a JSON document into an HTML page by
    replacing the text from the first `const worksheetJSONData = {` up to the scan's end offset
    with the assignment prefix and a freshly serialized copy.

    The brace scan is modelled exactly as the code runs it: it starts just past the marker's
    own `{` with the counter at 0, and it stops only at a `}` that brings the counter from 1
    back to 0. When no such `}` exists the end offset keeps its initial value and the splice
    goes ahead anyway. */
module SyncJson {
  import opened Wrappers
  import opened StringSearch

  /** The text searched for (line 18). */
  const StartMarker: string := "const worksheetJSONData = {"

  /** The text written in front of the serialized JSON (line 42). */
  const AssignPrefix: string := "const worksheetJSONData = "

  lemma MarkerIsPrefixAndBrace()
    ensures StartMarker == AssignPrefix + "{"
    ensures |StartMarker| == 27 && |AssignPrefix| == 26
  {
  }

  // ---------------------------------------------------------------------------------------
  // The brace counter
  // ---------------------------------------------------------------------------------------

  /** How one character changes `braceCount` (lines 31-33). */
  function Delta(c: char): (d: int)
    ensures -1 <= d <= 1
    ensures d == 1 <==> c == '{'
    ensures d == -1 <==> c == '}'
  {
    if c == '{' then 1 else if c == '}' then -1 else 0
  }

  /** The value of `braceCount` once the scan that began at `from` has consumed
      `html[from..j]`. */
  function Depth(html: string, from: nat, j: nat): (d: int)
    requires from <= j <= |html|
    ensures -(j - from) <= d <= j - from
    decreases j - from
  {
    if j == from then 0 else Depth(html, from, j - 1) + Delta(html[j - 1])
  }

  /** The scan that began at `from` breaks out at offset `k` (lines 32-36): `html[k]` is a `}`
      and the counter is exactly 0 after it. */
  predicate Closes(html: string, from: nat, k: nat): (b: bool)
    requires from <= k < |html|
    ensures b <==> html[k] == '}' && Depth(html, from, k) == 1
  {
    html[k] == '}' && Depth(html, from, k + 1) == 0
  }

  /** The end offset the scan from `from` chooses, given that it has reached offset `i`
      without breaking: one past the first closing `}` at or after `i`, or `from` itself when
      there is none. */
  function FirstCloser(html: string, from: nat, i: nat): (e: nat)
    requires from <= i <= |html|
    ensures e == from || i < e <= |html|
    decreases |html| - i
  {
    if i == |html| then from
    else if Closes(html, from, i) then i + 1
    else FirstCloser(html, from, i + 1)
  }

  /** `endIndex` after the loop at lines 28-39, for a scan that starts at `from`. */
  function ScanEnd(html: string, from: nat): (e: nat)
    requires from <= |html|
    ensures from <= e <= |html|
  {
    FirstCloser(html, from, from)
  }

  /** What `FirstCloser` finds, stated without reference to its recursion. */
  lemma {:induction false} FirstCloserFinds(html: string, from: nat, i: nat)
    requires from <= i <= |html|
    ensures var e := FirstCloser(html, from, i);
      if e == from then
        forall k: nat :: i <= k < |html| ==> !Closes(html, from, k)
      else
        Closes(html, from, e - 1) && forall k: nat :: i <= k < e - 1 ==> !Closes(html, from, k)
    decreases |html| - i
  {
    if i < |html| && !Closes(html, from, i) {
      FirstCloserFinds(html, from, i + 1);
    }
  }

  /** The scan ends one past the FIRST `}` that brings the counter to 0. */
  lemma ScanEndIsFirstCloser(html: string, from: nat, k: nat)
    requires from <= k < |html| && Closes(html, from, k)
    requires forall j: nat :: from <= j < k ==> !Closes(html, from, j)
    ensures ScanEnd(html, from) == k + 1
  {
    FirstCloserFinds(html, from, from);
  }

  /** The end offset stays at its initial value `from` exactly when no `}` ever brings the
      counter to 0 (lines 29 and 39). */
  lemma ScanEndWithoutCloser(html: string, from: nat)
    requires from <= |html|
    ensures ScanEnd(html, from) == from <==>
            forall k: nat :: from <= k < |html| ==> !Closes(html, from, k)
  {
    FirstCloserFinds(html, from, from);
    var e := ScanEnd(html, from);
    if e != from {
      assert Closes(html, from, e - 1);
    }
  }

  /** When the scan breaks, it breaks on a `}` read while the counter was 1, leaving it at 0;
      so a `{` never ends the scan, and neither does a `}` that takes the counter to -1 or
      below. */
  lemma ScanEndStopsOnClosingBrace(html: string, from: nat)
    requires from <= |html|
    ensures var e := ScanEnd(html, from);
      e != from ==>
        from < e &&
        html[e - 1] == '}' && Depth(html, from, e - 1) == 1 && Depth(html, from, e) == 0 &&
        forall k: nat :: from <= k < e - 1 && html[k] == '}' ==> Depth(html, from, k + 1) != 0
  {
    FirstCloserFinds(html, from, from);
    var e := ScanEnd(html, from);
    if e != from {
      forall k: nat | from <= k < e - 1 && html[k] == '}'
        ensures Depth(html, from, k + 1) != 0
      {
        assert !Closes(html, from, k);
      }
    }
  }

  /** The counter never reaches 1 while no `{` has been read, so a scan over text without `{`
      never breaks. */
  lemma {:induction false} DepthWithoutOpenBrace(html: string, from: nat, j: nat)
    requires from <= j <= |html|
    requires forall k: nat :: from <= k < j ==> html[k] != '{'
    ensures Depth(html, from, j) <= 0
    decreases j - from
  {
    if j > from {
      DepthWithoutOpenBrace(html, from, j - 1);
    }
  }

  /** If no `{` follows the scan's start, the end offset stays at the start. */
  lemma FlatTailNeverCloses(html: string, from: nat)
    requires from <= |html|
    requires forall k: nat :: from <= k < |html| ==> html[k] != '{'
    ensures ScanEnd(html, from) == from
  {
    forall k: nat | from <= k < |html|
      ensures !Closes(html, from, k)
    {
      DepthWithoutOpenBrace(html, from, k);
    }
    ScanEndWithoutCloser(html, from);
  }

  /** Counting from one character later, past a `{`, gives a counter one lower. */
  lemma {:induction false} DepthPastOpenBrace(html: string, open: nat, j: nat)
    requires open < j <= |html| && html[open] == '{'
    ensures Depth(html, open + 1, j) == Depth(html, open, j) - 1
    decreases j - open
  {
    if j > open + 1 {
      DepthPastOpenBrace(html, open, j - 1);
    }
  }

  /** Because the scan starts past the marker's own `{`, it breaks at the first `}` that
      brings the depth counted FROM THAT BRACE down to 1, not to 0: the end of the first
      nested object, not of the embedded literal. */
  lemma ScanSkipsMarkerBrace(html: string, open: nat, k: nat)
    requires open < k < |html| && html[open] == '{'
    ensures Closes(html, open + 1, k) <==> html[k] == '}' && Depth(html, open, k + 1) == 1
  {
    DepthPastOpenBrace(html, open, k + 1);
  }

  /** The counter depends only on the text after the scan's start. */
  lemma {:induction false} DepthShift(p: string, t: string, j: nat)
    requires j <= |t|
    ensures Depth(p + t, |p|, |p| + j) == Depth(t, 0, j)
  {
    if j > 0 {
      DepthShift(p, t, j - 1);
      assert (p + t)[|p| + j - 1] == t[j - 1];
    }
  }

  lemma {:induction false} FirstCloserShift(p: string, t: string, i: nat)
    requires i <= |t|
    ensures FirstCloser(p + t, |p|, |p| + i) == |p| + FirstCloser(t, 0, i)
    decreases |t| - i
  {
    if i < |t| {
      DepthShift(p, t, i + 1);
      assert (p + t)[|p| + i] == t[i];
      assert Closes(p + t, |p|, |p| + i) == Closes(t, 0, i);
      FirstCloserShift(p, t, i + 1);
    }
  }

  /** The end offset depends only on the text after the scan's start: scanning `p + t` from
      the end of `p` ends `|p|` characters later than scanning `t` from its start. */
  lemma ScanEndShift(p: string, t: string)
    ensures ScanEnd(p + t, |p|) == |p| + ScanEnd(t, 0)
  {
    FirstCloserShift(p, t, 0);
  }

  // ---------------------------------------------------------------------------------------
  // The splice
  // ---------------------------------------------------------------------------------------

  /** The text lines 42-45 build: the page before `startIndex` verbatim, the assignment
      prefix, the serialized JSON, the terminator `;`, and the page from `endIndex` on
      verbatim. */
  function Splice(html: string, startIndex: nat, endIndex: nat, serialized: string): (out: string)
    requires startIndex <= endIndex <= |html|
    ensures var n := startIndex + |AssignPrefix| + |serialized|;
      |out| == n + 1 + (|html| - endIndex) &&
      out[..startIndex] == html[..startIndex] &&
      out[startIndex..startIndex + |AssignPrefix|] == AssignPrefix &&
      out[startIndex + |AssignPrefix|..n] == serialized &&
      out[n] == ';' &&
      out[n + 1..] == html[endIndex..]
  {
    html[..startIndex] + AssignPrefix + serialized + ";" + html[endIndex..]
  }

  /** The new HTML text that lines 21-45 compute from `html` and the serialized JSON, or
      `None` when the marker does not occur (lines 22-25). */
  function Sync(html: string, serialized: string): (r: Option<string>)
    ensures r.None? <==> !Contains(html, StartMarker)
  {
    var startIndex := IndexOf(html, StartMarker);
    if startIndex == -1 then None
    else
      var endIndex := ScanEnd(html, startIndex + |StartMarker|);
      Some(Splice(html, startIndex, endIndex, serialized))
  }

  /** A successful sync splices at the FIRST marker occurrence, and its end offset lies
      between the end of the marker and the end of the text. */
  lemma SyncSplice(html: string, serialized: string, s: nat)
    requires OccursAt(html, StartMarker, s)
    requires forall j: nat :: j < s ==> !OccursAt(html, StartMarker, j)
    ensures var e := ScanEnd(html, s + |StartMarker|);
      s + |StartMarker| <= e <= |html| &&
      Sync(html, serialized) == Some(Splice(html, s, e, serialized))
  {
    IndexOfIsFirst(html, StartMarker, s);
  }

  /** The verbatim prefix of the output holds no occurrence of the marker: only the first
      occurrence is rewritten. */
  lemma SyncRewritesFirstMarker(html: string, serialized: string)
    requires Sync(html, serialized).Some?
    ensures var s := IndexOf(html, StartMarker);
      0 <= s && OccursAt(html, StartMarker, s) &&
      Sync(html, serialized).value[..s] == html[..s] &&
      !Contains(html[..s], StartMarker)
  {
    var s := IndexOf(html, StartMarker);
    var pre := html[..s];
    forall j: nat | j <= |pre| && OccursAt(pre, StartMarker, j)
      ensures false
    {
      assert html[j..j + |StartMarker|] == pre[j..j + |StartMarker|];
      assert OccursAt(html, StartMarker, j);
    }
  }

  // ---------------------------------------------------------------------------------------
  // Worked examples: a flat and a nested literal after the marker
  // ---------------------------------------------------------------------------------------

  /** A page that begins with the marker has its first occurrence at offset 0. */
  lemma MarkerAtStart(tail: string)
    ensures IndexOf(StartMarker + tail, StartMarker) == 0
  {
    var html := StartMarker + tail;
    assert html[..|StartMarker|] == StartMarker;
    IndexOfIsFirst(html, StartMarker, 0);
  }

  /** On a page that begins with the marker, the sync keeps what follows the scan's end in
      the text after the marker. */
  lemma SyncOfMarkedPage(tail: string, serialized: string)
    ensures Sync(StartMarker + tail, serialized)
         == Some(AssignPrefix + serialized + ";" + tail[ScanEnd(tail, 0)..])
  {
    var html := StartMarker + tail;
    MarkerAtStart(tail);
    ScanEndShift(StartMarker, tail);
    var e := ScanEnd(tail, 0);
    assert html[|StartMarker| + e..] == tail[e..];
    assert html[..0] + AssignPrefix == AssignPrefix;
  }

  /** The same for the corrected splice, whose scan starts at the marker's `{`: on a page
      made of the assignment prefix and a text `literal` opening with `{`. */
  lemma SyncCorrectedOfMarkedPage(literal: string, serialized: string)
    requires |literal| > 0 && literal[0] == '{'
    ensures SyncCorrected(AssignPrefix + literal, serialized)
         == Some(AssignPrefix + serialized + ";" + literal[ScanEnd(literal, 0)..])
  {
    var html := AssignPrefix + literal;
    MarkerIsPrefixAndBrace();
    assert literal == "{" + literal[1..];
    assert html == StartMarker + literal[1..];
    MarkerAtStart(literal[1..]);
    ScanEndShift(AssignPrefix, literal);
    var e := ScanEnd(literal, 0);
    assert html[|AssignPrefix| + e..] == literal[e..];
    assert html[..0] + AssignPrefix == AssignPrefix;
  }

  /** A flat object: the `}` after it takes the counter to -1, so the scan never breaks and
      the old object text is kept after the new block. */
  lemma FlatObjectNotReplaced(serialized: string)
    ensures Sync("const worksheetJSONData = {\"a\":1};rest", serialized)
         == Some(AssignPrefix + serialized + ";" + "\"a\":1};rest")
  {
    var tail := "\"a\":1};rest";
    assert StartMarker + tail == "const worksheetJSONData = {\"a\":1};rest";
    SyncOfMarkedPage(tail, serialized);
    FlatTailScan(tail);
  }

  /** The scan of the flat trace's text after the marker never breaks. */
  lemma FlatTailScan(t: string)
    requires t == "\"a\":1};rest"
    ensures ScanEnd(t, 0) == 0
  {
    assert forall k: nat :: k < |t| ==> t[k] != '{';
    FlatTailNeverCloses(t, 0);
  }

  /** Text without braces leaves the counter as it was. */
  lemma {:induction false} DepthAcrossPlainText(html: string, from: nat, a: nat, b: nat)
    requires from <= a <= b <= |html|
    requires forall k: nat :: a <= k < b ==> html[k] != '{' && html[k] != '}'
    ensures Depth(html, from, b) == Depth(html, from, a)
    decreases b - a
  {
    if b > a {
      DepthAcrossPlainText(html, from, a, b - 1);
    }
  }

  /** A stretch without `}` holds no offset where the scan breaks. */
  lemma NoCloserWithoutClosingBrace(html: string, from: nat, a: nat, b: nat)
    requires from <= a <= b <= |html|
    requires forall k: nat :: a <= k < b ==> html[k] != '}'
    ensures forall k: nat :: a <= k < b ==> !Closes(html, from, k)
  {
  }

  /** The scan of the nested trace's text after the marker. */
  lemma NestedTailScan(t: string)
    requires t == "\"w\":{\"b\":1}};rest"
    ensures ScanEnd(t, 0) == 11
  {
    DepthAcrossPlainText(t, 0, 0, 4);
    DepthAcrossPlainText(t, 0, 5, 10);
    NoCloserWithoutClosingBrace(t, 0, 0, 10);
    ScanEndIsFirstCloser(t, 0, 10);
  }

  /** The scan of the nested trace's literal, from its `{`. */
  lemma NestedLiteralScan(t: string)
    requires t == "{\"w\":{\"b\":1}};rest"
    ensures ScanEnd(t, 0) == 13
  {
    DepthAcrossPlainText(t, 0, 1, 5);
    DepthAcrossPlainText(t, 0, 6, 11);
    NoCloserWithoutClosingBrace(t, 0, 0, 11);
    assert !Closes(t, 0, 11);
    ScanEndIsFirstCloser(t, 0, 12);
  }

  /** One nested object: the scan breaks at the inner `}`, so the outer `};` is kept after
      the new block. */
  lemma NestedObjectCutShort(serialized: string)
    ensures Sync("const worksheetJSONData = {\"w\":{\"b\":1}};rest", serialized)
         == Some(AssignPrefix + serialized + ";" + "};rest")
  {
    var tail := "\"w\":{\"b\":1}};rest";
    assert StartMarker + tail == "const worksheetJSONData = {\"w\":{\"b\":1}};rest";
    SyncOfMarkedPage(tail, serialized);
    NestedTailScan(tail);
    assert tail[11..] == "};rest";
  }

  // ---------------------------------------------------------------------------------------
  // One call of syncJSONToHTML against a file system
  // ---------------------------------------------------------------------------------------

  /** The files the script sees: contents by path, and the paths a write to fails. */
  datatype Disk = Disk(files: map<string, string>, readOnly: set<string>)

  /** Whether the call returned true, and the file system afterwards. */
  datatype Step = Step(ok: bool, disk: Disk)

  /** What `syncJSONToHTML(jsonPath, htmlPath)` does (lines 9-57). `reformat` stands for
      `JSON.stringify(JSON.parse(text), null, 2)` and is `None` where parsing throws. A missing
      file, a parse failure, a missing marker and a failed write all return false and leave
      every file as it was. */
  function SyncFile(disk: Disk, jsonPath: string, htmlPath: string,
                    reformat: string -> Option<string>): (r: Step)
    ensures !r.ok ==> r.disk == disk
    ensures r.disk.readOnly == disk.readOnly && r.disk.files.Keys == disk.files.Keys
    ensures forall p :: p in disk.files && p != htmlPath ==> r.disk.files[p] == disk.files[p]
  {
    if jsonPath !in disk.files || htmlPath !in disk.files then Step(false, disk)
    else
      match reformat(disk.files[jsonPath])
      case None => Step(false, disk)
      case Some(serialized) =>
        match Sync(disk.files[htmlPath], serialized)
        case None => Step(false, disk)
        case Some(newHtml) =>
          if htmlPath in disk.readOnly then Step(false, disk)
          else Step(true, disk.(files := disk.files[htmlPath := newHtml]))
  }

  /** The call succeeds exactly when both files are readable, the JSON parses, the marker
      occurs in the HTML and the HTML file is writable; it then holds the spliced text. */
  lemma SyncFileSucceeds(disk: Disk, jsonPath: string, htmlPath: string,
                         reformat: string -> Option<string>)
    ensures var r := SyncFile(disk, jsonPath, htmlPath, reformat);
      r.ok <==>
        jsonPath in disk.files && htmlPath in disk.files &&
        reformat(disk.files[jsonPath]).Some? &&
        Contains(disk.files[htmlPath], StartMarker) &&
        htmlPath !in disk.readOnly
    ensures var r := SyncFile(disk, jsonPath, htmlPath, reformat);
      r.ok ==>
        r.disk.files[htmlPath]
        == Sync(disk.files[htmlPath], reformat(disk.files[jsonPath]).value).value
  {
  }

  /** `syncJSONToHTML` with its brace-counting loop. */
  method SyncJsonToHtml(disk: Disk, jsonPath: string, htmlPath: string,
                         reformat: string -> Option<string>)
    returns (ok: bool, after: Disk)
    ensures Step(ok, after) == SyncFile(disk, jsonPath, htmlPath, reformat)
  {
    ok, after := false, disk;
    if jsonPath !in disk.files {
      return;
    }
    var parsed := reformat(disk.files[jsonPath]);
    if parsed.None? || htmlPath !in disk.files {
      return;
    }
    var htmlContent := disk.files[htmlPath];

    var startIndex := IndexOf(htmlContent, StartMarker);
    if startIndex == -1 {
      return;
    }

    var braceCount := 0;
    var endIndex := startIndex + |StartMarker|;
    ghost var from := endIndex;
    var i := endIndex;
    while i < |htmlContent|
      invariant from <= i <= |htmlContent|
      invariant endIndex == from
      invariant braceCount == Depth(htmlContent, from, i)
      invariant FirstCloser(htmlContent, from, i) == ScanEnd(htmlContent, from)
      decreases |htmlContent| - i
    {
      if htmlContent[i] == '{' {
        braceCount := braceCount + 1;
      }
      if htmlContent[i] == '}' {
        braceCount := braceCount - 1;
        if braceCount == 0 {
          endIndex := i + 1;
          break;
        }
      }
      i := i + 1;
    }
    assert endIndex == ScanEnd(htmlContent, from);

    var newHtmlContent := htmlContent[..startIndex] + AssignPrefix + parsed.value + ";"
                          + htmlContent[endIndex..];
    if htmlPath in disk.readOnly {
      return;
    }
    ok, after := true, disk.(files := disk.files[htmlPath := newHtmlContent]);
  }

  // ---------------------------------------------------------------------------------------
  // The scan as evidently intended
  // ---------------------------------------------------------------------------------------

  /** The splice with the scan started AT the marker's own `{` (offset
      `startIndex + startMarker.length - 1`), which is what the brace counter is evidently
      meant to do. Everything else is as in `Sync`, including the silent fallback when no
      closing brace is found. */
  function SyncCorrected(html: string, serialized: string): (r: Option<string>)
    ensures r.None? <==> !Contains(html, StartMarker)
  {
    var startIndex := IndexOf(html, StartMarker);
    if startIndex == -1 then None
    else
      var endIndex := ScanEnd(html, startIndex + |StartMarker| - 1);
      Some(Splice(html, startIndex, endIndex, serialized))
  }

  /** Counted from the marker's `{`, the depth is positive at every offset inside the span
      the corrected scan removes. */
  lemma {:induction false} DepthInsideLiteral(html: string, open: nat, j: nat)
    requires open < j < |html| && html[open] == '{'
    requires forall k: nat :: open <= k < j ==> !Closes(html, open, k)
    ensures Depth(html, open, j) >= 1
    decreases j - open
  {
    if j > open + 1 {
      DepthInsideLiteral(html, open, j - 1);
      assert !Closes(html, open, j - 1);
    }
  }

  /** A scan started at a `{` that breaks removes a balanced literal: it ends with the `}`
      matching that `{`, and the depth stays positive in between. */
  lemma ScanFromBraceIsBalanced(html: string, open: nat)
    requires open < |html| && html[open] == '{'
    ensures var e := ScanEnd(html, open);
      e != open ==>
        open < e && html[e - 1] == '}' && Depth(html, open, e) == 0 &&
        forall j: nat :: open < j < e ==> Depth(html, open, j) >= 1
  {
    var e := ScanEnd(html, open);
    if e != open {
      FirstCloserFinds(html, open, open);
      forall j: nat | open < j < e
        ensures Depth(html, open, j) >= 1
      {
        DepthInsideLiteral(html, open, j);
      }
    }
  }

  /** The last character of a marker occurrence is its `{`. */
  lemma MarkerEndsWithBrace(html: string, s: nat)
    requires OccursAt(html, StartMarker, s)
    ensures html[s + |StartMarker| - 1] == '{'
  {
    assert html[s + |StartMarker| - 1] == html[s..s + |StartMarker|][|StartMarker| - 1];
  }

  /** When the embedded literal is closed, the corrected splice removes exactly that literal:
      the removed text starts with the marker's `{`, ends with the `}` matching it, and the
      depth stays positive in between. */
  lemma SyncCorrectedReplacesLiteral(html: string, serialized: string)
    requires Contains(html, StartMarker)
    ensures var open := IndexOf(html, StartMarker) + |StartMarker| - 1;
      html[open] == '{'
    ensures var s := IndexOf(html, StartMarker);
      SyncCorrected(html, serialized)
      == Some(Splice(html, s, ScanEnd(html, s + |StartMarker| - 1), serialized))
    ensures var open := IndexOf(html, StartMarker) + |StartMarker| - 1;
      var e := ScanEnd(html, open);
      e != open ==>
        html[e - 1] == '}' && Depth(html, open, e) == 0 &&
        forall j: nat :: open < j < e ==> Depth(html, open, j) >= 1
  {
    var s := IndexOf(html, StartMarker);
    MarkerEndsWithBrace(html, s);
    ScanFromBraceIsBalanced(html, s + |StartMarker| - 1);
  }

  /** The corrected splice of the nested trace removes the whole literal. */
  lemma NestedObjectReplacedWhenCorrected(serialized: string)
    ensures SyncCorrected("const worksheetJSONData = {\"w\":{\"b\":1}};rest", serialized)
         == Some(AssignPrefix + serialized + ";" + ";rest")
  {
    var literal := "{\"w\":{\"b\":1}};rest";
    assert AssignPrefix + literal == "const worksheetJSONData = {\"w\":{\"b\":1}};rest";
    SyncCorrectedOfMarkedPage(literal, serialized);
    NestedLiteralScan(literal);
    assert literal[13..] == ";rest";
  }

  /** The correction changes only the text written, never whether the call succeeds. */
  lemma SyncCorrectedSameOutcome(html: string, serialized: string)
    ensures SyncCorrected(html, serialized).Some? == Sync(html, serialized).Some?
  {
  }
}
