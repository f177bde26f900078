/** `syncAllWorksheets` of dev-tools/sync-json.js: run the one-file sync over a fixed list of
    (JSON file, HTML file) pairs, in list order, counting the calls that returned true. An
    entry whose files do not both exist is skipped without a call. */
module SyncBatch {
  import opened Wrappers
  import opened StringSearch
  import opened SyncJson

  /** One entry of the list: the JSON file to read and the HTML file to rewrite. */
  datatype Worksheet = Worksheet(json: string, html: string)

  /** The fixed list at lines 60-63. */
  const Worksheets: seq<Worksheet> := [
    Worksheet("dev-tools/worksheet-1-qa-export.json", "worksheet-1.html"),
    Worksheet("dev-tools/worksheet-1-qa-export.json", "worksheet-1-json.html")
  ]

  /** One pass of the loop body (lines 69-75): the call happens only when both files exist. */
  function Attempt(disk: Disk, w: Worksheet, reformat: string -> Option<string>): (r: Step)
    ensures r.ok ==> w.json in disk.files && w.html in disk.files
    ensures !r.ok ==> r.disk == disk
  {
    if w.json in disk.files && w.html in disk.files then SyncFile(disk, w.json, w.html, reformat)
    else Step(false, disk)
  }

  /** The success count and the file system after running the entries of `ws` in order. */
  datatype Tally = Tally(successes: nat, disk: Disk)

  function RunBatch(disk: Disk, ws: seq<Worksheet>, reformat: string -> Option<string>): (r: Tally)
    ensures r.disk.files.Keys == disk.files.Keys && r.disk.readOnly == disk.readOnly
    decreases |ws|
  {
    if ws == [] then Tally(0, disk)
    else
      var first := Attempt(disk, ws[0], reformat);
      var rest := RunBatch(first.disk, ws[1..], reformat);
      Tally(rest.successes + (if first.ok then 1 else 0), rest.disk)
  }

  /** At most one success per entry. */
  lemma {:induction false} RunBatchBounded(disk: Disk, ws: seq<Worksheet>,
                                           reformat: string -> Option<string>)
    ensures RunBatch(disk, ws, reformat).successes <= |ws|
    decreases |ws|
  {
    if ws != [] {
      RunBatchBounded(Attempt(disk, ws[0], reformat).disk, ws[1..], reformat);
    }
  }

  /** Entries run in list order: running `a + b` is running `a`, then `b` on the files `a`
      left behind, with the counts added. */
  lemma {:induction false} RunBatchAppend(disk: Disk, a: seq<Worksheet>, b: seq<Worksheet>,
                                          reformat: string -> Option<string>)
    ensures var ra := RunBatch(disk, a, reformat);
      var rb := RunBatch(ra.disk, b, reformat);
      RunBatch(disk, a + b, reformat) == Tally(ra.successes + rb.successes, rb.disk)
    decreases |a|
  {
    if a == [] {
      assert a + b == b;
    } else {
      assert (a + b)[0] == a[0];
      assert (a + b)[1..] == a[1..] + b;
      RunBatchAppend(Attempt(disk, a[0], reformat).disk, a[1..], b, reformat);
    }
  }

  /** Only the HTML files of the list are ever written: every other file keeps its contents,
      no file appears or disappears, and the read-only set stays as it was. */
  lemma {:induction false} RunBatchWritesOnlyHosts(disk: Disk, ws: seq<Worksheet>,
                                                   reformat: string -> Option<string>, p: string)
    requires forall k :: 0 <= k < |ws| ==> ws[k].html != p
    ensures var after := RunBatch(disk, ws, reformat).disk;
      after.files.Keys == disk.files.Keys && after.readOnly == disk.readOnly &&
      (p in disk.files ==> after.files[p] == disk.files[p])
    decreases |ws|
  {
    if ws != [] {
      RunBatchWritesOnlyHosts(Attempt(disk, ws[0], reformat).disk, ws[1..], reformat, p);
    }
  }

  /** A list none of whose HTML files exists yields no success and changes nothing. */
  lemma {:induction false} RunBatchAllSkipped(disk: Disk, ws: seq<Worksheet>,
                                              reformat: string -> Option<string>)
    requires forall k :: 0 <= k < |ws| ==> ws[k].html !in disk.files
    ensures RunBatch(disk, ws, reformat) == Tally(0, disk)
    decreases |ws|
  {
    if ws != [] {
      RunBatchAllSkipped(disk, ws[1..], reformat);
    }
  }

  /** A failing entry does not stop the batch: with the marker missing from the first host
      and the second entry in order, exactly one entry succeeds and its host is rewritten. */
  lemma PartialFailure(disk: Disk, w1: Worksheet, w2: Worksheet,
                       reformat: string -> Option<string>)
    requires w1.html in disk.files && !Contains(disk.files[w1.html], StartMarker)
    requires w2.json in disk.files && w2.html in disk.files && w2.html !in disk.readOnly
    requires reformat(disk.files[w2.json]).Some?
    requires Contains(disk.files[w2.html], StartMarker)
    ensures var r := RunBatch(disk, [w1, w2], reformat);
      r.successes == 1 &&
      r.disk.files == disk.files[w2.html :=
        Sync(disk.files[w2.html], reformat(disk.files[w2.json]).value).value]
  {
    SyncFileSucceeds(disk, w1.json, w1.html, reformat);
    assert Attempt(disk, w1, reformat) == Step(false, disk);
    SyncFileSucceeds(disk, w2.json, w2.html, reformat);
    var second := Attempt(disk, w2, reformat);
    assert second.ok;
    assert [w1, w2][1..] == [w2] && [w2][1..] == [];
    assert RunBatch(disk, [w2], reformat) == Tally(1, second.disk);
  }

  /** `syncAllWorksheets` (lines 59-80), returning the count it reports and the files as
      they are afterwards. */
  method SyncAllWorksheets(disk: Disk, reformat: string -> Option<string>)
    returns (successCount: nat, after: Disk)
    ensures Tally(successCount, after) == RunBatch(disk, Worksheets, reformat)
    ensures successCount <= |Worksheets|
  {
    successCount, after := 0, disk;
    for k := 0 to |Worksheets|
      invariant successCount <= k
      invariant RunBatch(disk, Worksheets, reformat)
             == var rest := RunBatch(after, Worksheets[k..], reformat);
                Tally(successCount + rest.successes, rest.disk)
    {
      var worksheet := Worksheets[k];
      assert Worksheets[k..][1..] == Worksheets[k + 1..];
      if worksheet.json in after.files && worksheet.html in after.files {
        var ok;
        ok, after := SyncJsonToHtml(after, worksheet.json, worksheet.html, reformat);
        if ok {
          successCount := successCount + 1;
        }
      }
    }
    assert Worksheets[|Worksheets|..] == [];
  }
}
