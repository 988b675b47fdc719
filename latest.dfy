/** `latest_screenshot`: the regular file with the newest modification
    time among the direct children of a directory. */
module Latest {

  import opened Wrappers

  /** One directory entry as `directory_iterator` yields it: its full path,
      whether it is a regular file, and its last write time. */
  datatype Entry = Entry(path: string, isRegular: bool, time: int)

  /** What a scan of the screenshot directory can observe: whether the path
      is present, whether it is a directory, its entries in enumeration order,
      and whether any filesystem call of the scan throws. */
  datatype Dir = Dir(present: bool, isDirectory: bool, entries: seq<Entry>, scanFails: bool)

  ghost predicate HasRegular(es: seq<Entry>)
  {
    exists j :: 0 <= j < |es| && es[j].isRegular
  }

  /** Entry `k` is a regular file whose time is at least that of every
      regular entry and strictly greater than that of every regular entry
      before it: the first newest file. */
  ghost predicate IsFirstNewest(es: seq<Entry>, k: int)
  {
    0 <= k < |es| && es[k].isRegular &&
    (forall j :: 0 <= j < |es| && es[j].isRegular ==> es[j].time <= es[k].time) &&
    (forall j :: 0 <= j < k && es[j].isRegular ==> es[j].time < es[k].time)
  }

  /** The index the scan keeps after visiting `es`, in enumeration order:
      a regular entry replaces the kept one when nothing is kept yet or when
      its time is strictly greater. */
  function Kept(es: seq<Entry>): (r: Option<nat>)
    ensures r.Some? ==> r.value < |es| && es[r.value].isRegular
  {
    if es == [] then None
    else
      var k := Kept(es[..|es| - 1]);
      var e := es[|es| - 1];
      if e.isRegular && (k.None? || e.time > es[k.value].time) then Some(|es| - 1) else k
  }

  /** The scan keeps nothing exactly when there is no regular entry, and
      otherwise keeps the first newest regular entry and no other. */
  lemma {:induction false} KeptIsFirstNewest(es: seq<Entry>)
    ensures Kept(es).None? <==> !HasRegular(es)
    ensures forall k :: IsFirstNewest(es, k) <==> Kept(es) == Some(k)
  {
    if es != [] {
      var init := es[..|es| - 1];
      var last := |es| - 1;
      KeptIsFirstNewest(init);
      assert forall j :: 0 <= j < |init| ==> init[j] == es[j];
      if Kept(init).Some? {
        assert IsFirstNewest(init, Kept(init).value);
      }
      if Kept(es).Some? {
        var k := Kept(es).value;
        assert IsFirstNewest(es, k);
      }
    }
  }

  /** The path `latest_screenshot` returns for the directory `d`. */
  function Newest(d: Dir): Option<string>
  {
    if !d.present || !d.isDirectory || d.scanFails then None
    else match Kept(d.entries)
      case None => None
      case Some(k) => Some(d.entries[k].path)
  }

  /** There is no result when the directory is missing, is not a directory,
      cannot be scanned or holds no regular file; otherwise the result is the
      path of the first newest regular file. */
  lemma NewestSpec(d: Dir)
    ensures Newest(d).None? <==>
              !d.present || !d.isDirectory || d.scanFails || !HasRegular(d.entries)
    ensures Newest(d).Some? ==>
              exists k :: IsFirstNewest(d.entries, k) && Newest(d).value == d.entries[k].path
  {
    KeptIsFirstNewest(d.entries);
  }

  /** `latest_screenshot`: one pass over the entries keeping the path and
      time of the best regular file so far. An exception anywhere in the scan
      is caught and discards whatever the loop had kept. */
  method LatestScreenshot(d: Dir) returns (latest: Option<string>)
    ensures latest == Newest(d)
  {
    if !d.present || !d.isDirectory {
      return None;
    }
    if d.scanFails {
      return None;
    }
    var latestPath: Option<string> := None;
    var latestTime := 0;
    ghost var kept: Option<nat> := None;
    for i := 0 to |d.entries|
      invariant kept == Kept(d.entries[..i])
      invariant kept.None? ==> latestPath.None?
      invariant kept.Some? ==> kept.value < i && latestPath == Some(d.entries[kept.value].path) &&
                               latestTime == d.entries[kept.value].time
    {
      var entry := d.entries[i];
      assert d.entries[..i + 1][..i] == d.entries[..i];
      if !entry.isRegular {
        continue;
      }
      if latestPath.None? || entry.time > latestTime {
        latestTime := entry.time;
        latestPath := Some(entry.path);
        kept := Some(i);
      }
    }
    assert d.entries[..|d.entries|] == d.entries;
    latest := latestPath;
  }

  /** A file strictly newer than everything already scanned becomes the result. */
  lemma {:induction false} StrictlyNewerWins(es: seq<Entry>, e: Entry)
    requires e.isRegular
    requires forall j :: 0 <= j < |es| && es[j].isRegular ==> es[j].time < e.time
    ensures Kept(es + [e]) == Some(|es|)
  {
    assert (es + [e])[..|es|] == es;
    KeptIsFirstNewest(es);
    if Kept(es).Some? {
      assert es[Kept(es).value].isRegular;
    }
  }

  /** A later file with the same time as the kept one does not replace it. */
  lemma {:induction false} TieKeepsFirst(es: seq<Entry>, e: Entry)
    requires Kept(es).Some? && e.time == es[Kept(es).value].time
    ensures Kept(es + [e]) == Kept(es)
  {
    assert (es + [e])[..|es|] == es;
  }
}
