/** The fetch phase of the scraper (`ImageScraper.download_image` and
    `ImageScraper.download_images`): one task per discovered item link, each
    fetching the item's detail page, following its "Raw Scan" link and
    writing the image to `image_<i+1>.jpg`, and a coordinator that counts the
    tasks that reported success.

    HTTP requests, HTML parsing and the file write are replaced by what they
    report for an item (`ItemEnv`); the thread pool is replaced by the order in
    which the tasks' results are collected, which may be any arrangement of
    the item indices. */
module Download {

  import opened Wrappers
  import Decimal
  import Counting
  import Discovery

  /** The anchor the "Raw Scan" selector found on a detail page, with its
      `href` attribute when present. */
  datatype RawScanLink = RawScanLink(href: Option<string>)

  /** What fetching an item's detail page reports: the request raised (a
      network error or a non-2xx status), or the page arrived and the selector
      found this anchor, or none. */
  datatype DetailFetch = DetailFailed | DetailPage(rawScan: Option<RawScanLink>)

  /** Everything the outside world decides about one item: the detail page,
      whether the image request succeeds, and whether the file write
      completes. */
  datatype ItemEnv = ItemEnv(detail: DetailFetch, imageFetched: bool, writeCompletes: bool)

  /** Why an item failed, in the order the task's steps are tried. */
  datatype Failure = DetailRequestFailed | RawScanLinkMissing | ImageRequestFailed | WriteFailed

  /** The result of one task: which item it was, the path it tried to open
      for writing (if both requests got that far; the open itself may still
      fail), and its failure, if any. */
  datatype ItemOutcome = ItemOutcome(index: nat, url: string, target: Option<string>, failure: Option<Failure>)

  /** `os.path.join(dir, name)` on POSIX for a `name` that does not start with
      a slash: a separator is inserted unless `dir` is empty or already ends
      with one. */
  function Join(dir: string, name: string): string {
    if dir == [] || dir[|dir| - 1] == '/' then dir + name else dir + "/" + name
  }

  /** Joining onto the same directory keeps different names apart. */
  lemma JoinInjective(dir: string, a: string, b: string)
    ensures Join(dir, a) == Join(dir, b) ==> a == b
  {
    if Join(dir, a) == Join(dir, b) {
      var prefix := if dir == [] || dir[|dir| - 1] == '/' then dir else dir + "/";
      assert Join(dir, a) == prefix + a && Join(dir, b) == prefix + b;
      assert a == (prefix + a)[|prefix|..];
      assert b == (prefix + b)[|prefix|..];
    }
  }

  /** The output file name for the item at index `i`: numbering starts at 1
      and the extension is always `.jpg`. */
  function FileName(i: nat): string {
    "image_" + Decimal.FromNat(i + 1) + ".jpg"
  }

  /** Different item indices get different file names. */
  lemma FileNameInjective(i: nat, j: nat)
    ensures FileName(i) == FileName(j) ==> i == j
  {
    if FileName(i) == FileName(j) {
      var di, dj := Decimal.FromNat(i + 1), Decimal.FromNat(j + 1);
      assert |di| == |dj|;
      assert di == FileName(i)[6..6 + |di|];
      assert dj == FileName(j)[6..6 + |dj|];
      Decimal.FromNatInjective(i + 1, j + 1);
    }
  }

  /** The path the item at index `i` is written to. */
  function TargetPath(dir: string, i: nat): string {
    Join(dir, FileName(i))
  }

  /** Item files in one directory are pairwise distinct: no two items ever
      write the same path, whatever order the tasks run in. */
  lemma TargetPathInjective(dir: string, i: nat, j: nat)
    ensures TargetPath(dir, i) == TargetPath(dir, j) ==> i == j
  {
    JoinInjective(dir, FileName(i), FileName(j));
    FileNameInjective(i, j);
  }

  /** The detail page arrived and its "Raw Scan" anchor has an `href`
      attribute (possibly empty: the source tests presence, not truthiness). */
  predicate HasRawScanHref(d: DetailFetch) {
    d.DetailPage? && d.rawScan.Some? && d.rawScan.value.href.Some?
  }

  /** One task, `download_image(url, download_path, i)`. It succeeds exactly
      when the detail page arrived with a usable "Raw Scan" anchor, the image
      request succeeded and the write completed. It opens a file only after
      both requests succeeded, and that file is the item's own target path; a
      missing anchor or `href` means no file is touched. */
  function DownloadImage(env: ItemEnv, url: string, dir: string, i: nat): (o: ItemOutcome)
    ensures o.index == i && o.url == url
    ensures Succeeded(o) <==> HasRawScanHref(env.detail) && env.imageFetched && env.writeCompletes
    ensures o.target.Some? <==> HasRawScanHref(env.detail) && env.imageFetched
    ensures o.target.Some? ==> o.target.value == TargetPath(dir, i)
    ensures Succeeded(o) ==> o.target.Some?
    ensures env.detail.DetailPage? && !HasRawScanHref(env.detail) ==> o.failure == Some(RawScanLinkMissing)
  {
    match env.detail
    case DetailFailed => ItemOutcome(i, url, None, Some(DetailRequestFailed))
    case DetailPage(rawScan) =>
      if rawScan.Some? && rawScan.value.href.Some? then
        if !env.imageFetched then
          ItemOutcome(i, url, None, Some(ImageRequestFailed))
        else
          var filename := TargetPath(dir, i);
          if env.writeCompletes then ItemOutcome(i, url, Some(filename), None)
          else ItemOutcome(i, url, Some(filename), Some(WriteFailed))
      else
        ItemOutcome(i, url, None, Some(RawScanLinkMissing))
  }

  /** Every outcome reports its own position, and a success wrote its own
      target path. */
  predicate WellIndexed(dir: string, outcomes: seq<ItemOutcome>) {
    forall i :: 0 <= i < |outcomes| ==>
      outcomes[i].index == i && (Succeeded(outcomes[i]) ==> outcomes[i].target == Some(TargetPath(dir, i)))
  }

  /** The tasks submitted for a list of item links: `enumerate` pairs each
      link with its position, and the task for position `i` runs under that
      item's environment. */
  function Tasks(dir: string, urls: seq<string>, envs: seq<ItemEnv>): (outcomes: seq<ItemOutcome>)
    requires |envs| == |urls|
    ensures |outcomes| == |urls|
    ensures WellIndexed(dir, outcomes)
    ensures forall i :: 0 <= i < |urls| ==> outcomes[i].url == urls[i]
  {
    seq(|urls|, i requires 0 <= i < |urls| => DownloadImage(envs[i], urls[i], dir, i))
  }

  /** A task succeeded when it reports no failure. */
  predicate Succeeded(o: ItemOutcome) {
    o.failure.None?
  }

  /** `Succeeded`, lifted to item indices of a list of outcomes. */
  function SucceededAt(outcomes: seq<ItemOutcome>): nat -> bool {
    (i: nat) => i < |outcomes| && Succeeded(outcomes[i])
  }

  /** The number of outcomes that succeeded. */
  function SuccessCount(outcomes: seq<ItemOutcome>): nat {
    Counting.Count(outcomes, Succeeded)
  }

  /** A completion order: each of the `n` item indices exactly once, in any
      arrangement (the order `as_completed` happens to yield the futures). */
  predicate IsCompletionOrder(order: seq<nat>, n: nat) {
    multiset(order) == multiset(Counting.Range(0, n))
  }

  lemma CompletionOrderInRange(order: seq<nat>, n: nat)
    requires IsCompletionOrder(order, n)
    ensures forall k :: 0 <= k < |order| ==> order[k] < n
  {
    forall k | 0 <= k < |order|
      ensures order[k] < n
    {
      assert order[k] in multiset(order);
      assert order[k] in Counting.Range(0, n);
    }
  }

  /** `download_images(download_path)`: submit one task per link in the
      scraper's list, then go through the results in completion order and
      count the successes. The count is the number of items whose task
      succeeded, whatever the completion order, and it is at most the number
      of items. */
  method DownloadImages(s: Discovery.Scraper, dir: string, envs: seq<ItemEnv>, order: seq<nat>)
    returns (downloaded: nat)
    requires |envs| == |s.imageUrls|
    requires IsCompletionOrder(order, |envs|)
    ensures downloaded == SuccessCount(Tasks(dir, s.imageUrls, envs))
    ensures downloaded <= |s.imageUrls|
    ensures downloaded == |WrittenFiles(Tasks(dir, s.imageUrls, envs))|
  {
    var results := Tasks(dir, s.imageUrls, envs);
    CompletionOrderInRange(order, |results|);
    downloaded := 0;
    var k := 0;
    while k < |order|
      invariant 0 <= k <= |order|
      invariant downloaded == Counting.Count(order[..k], SucceededAt(results))
    {
      var i := order[k];
      if Succeeded(results[i]) {
        downloaded := downloaded + 1;
      }
      Counting.CountAppend(order[..k], [i], SucceededAt(results));
      assert order[..k + 1] == order[..k] + [i];
      k := k + 1;
    }
    assert order[..k] == order;
    Counting.CountPermutation(order, Counting.Range(0, |results|), SucceededAt(results));
    Counting.CountOverIndices(results, Succeeded, SucceededAt(results));
    WrittenFilesCount(dir, results);
  }

  /** The files whose write completed: the target of every task that
      succeeded. A task whose write failed after `open` may leave a partial
      file that is not among them. */
  function WrittenFiles(outcomes: seq<ItemOutcome>): set<string> {
    set i | 0 <= i < |outcomes| && Succeeded(outcomes[i]) && outcomes[i].target.Some? :: outcomes[i].target.value
  }

  /** The file of item `i` is among the written files exactly when item `i`
      succeeded. */
  lemma WrittenFileOf(dir: string, outcomes: seq<ItemOutcome>, i: nat)
    requires WellIndexed(dir, outcomes)
    requires i < |outcomes|
    ensures TargetPath(dir, i) in WrittenFiles(outcomes) <==> Succeeded(outcomes[i])
  {
    if TargetPath(dir, i) in WrittenFiles(outcomes) {
      var j :| 0 <= j < |outcomes| && Succeeded(outcomes[j]) && outcomes[j].target.Some?
        && outcomes[j].target.value == TargetPath(dir, i);
      TargetPathInjective(dir, i, j);
    }
  }

  /** Every success names the file it wrote, and no two successes wrote the
      same file. */
  predicate DistinctTargets(outcomes: seq<ItemOutcome>) {
    && (forall i :: 0 <= i < |outcomes| && Succeeded(outcomes[i]) ==> outcomes[i].target.Some?)
    && (forall i, j :: 0 <= i < j < |outcomes| && Succeeded(outcomes[i]) && Succeeded(outcomes[j]) ==>
         outcomes[i].target != outcomes[j].target)
  }

  /** Outcomes that each wrote their own target path never collide. */
  lemma WellIndexedTargetsDistinct(dir: string, outcomes: seq<ItemOutcome>)
    requires WellIndexed(dir, outcomes)
    ensures DistinctTargets(outcomes)
  {
    forall i, j | 0 <= i < j < |outcomes| && Succeeded(outcomes[i]) && Succeeded(outcomes[j])
      ensures outcomes[i].target != outcomes[j].target
    {
      TargetPathInjective(dir, i, j);
    }
  }

  /** There are exactly as many written files as successes. */
  lemma {:induction false} DistinctTargetsCount(outcomes: seq<ItemOutcome>)
    requires DistinctTargets(outcomes)
    ensures |WrittenFiles(outcomes)| == SuccessCount(outcomes)
  {
    if |outcomes| == 0 {
      assert WrittenFiles(outcomes) == {};
    } else {
      var n := |outcomes| - 1;
      var prefix := outcomes[..n];
      var last := outcomes[n];
      assert DistinctTargets(prefix);
      DistinctTargetsCount(prefix);
      assert SuccessCount(outcomes) == SuccessCount(prefix) + (if Succeeded(last) then 1 else 0) by {
        assert outcomes == prefix + [last];
        Counting.CountAppend(prefix, [last], Succeeded);
      }
      WrittenFilesSnoc(prefix, last);
      assert outcomes == prefix + [last];
      if Succeeded(last) {
        assert last.target.value !in WrittenFiles(prefix) by {
          LastTargetFresh(outcomes);
        }
      }
    }
  }

  /** Appending one outcome adds at most its own target to the written files. */
  lemma WrittenFilesSnoc(prefix: seq<ItemOutcome>, last: ItemOutcome)
    ensures WrittenFiles(prefix + [last]) ==
      WrittenFiles(prefix) + (if Succeeded(last) && last.target.Some? then {last.target.value} else {})
  {
    var all := prefix + [last];
    assert forall i :: 0 <= i < |prefix| ==> all[i] == prefix[i];
    assert all[|prefix|] == last;
  }

  /** Under distinct targets, a successful last outcome names a file no
      earlier outcome wrote. */
  lemma LastTargetFresh(outcomes: seq<ItemOutcome>)
    requires DistinctTargets(outcomes)
    requires |outcomes| > 0 && Succeeded(outcomes[|outcomes| - 1])
    ensures outcomes[|outcomes| - 1].target.value !in WrittenFiles(outcomes[..|outcomes| - 1])
  {
    var n := |outcomes| - 1;
    assert forall i :: 0 <= i < n ==> outcomes[..n][i] == outcomes[i];
  }

  /** Written files correspond one to one with successful items: there are
      exactly as many files as successes. */
  lemma WrittenFilesCount(dir: string, outcomes: seq<ItemOutcome>)
    requires WellIndexed(dir, outcomes)
    ensures |WrittenFiles(outcomes)| == SuccessCount(outcomes)
  {
    WellIndexedTargetsDistinct(dir, outcomes);
    DistinctTargetsCount(outcomes);
  }

  /** Three items into `downloaded_images`, the second of which has a detail
      page without a "Raw Scan" link: two downloads succeed, and the
      directory ends up with `image_1.jpg` and `image_3.jpg` but no
      `image_2.jpg`. */
  lemma MissingLinkScenario(urls: seq<string>)
    requires |urls| == 3
    ensures var ok := ItemEnv(DetailPage(Some(RawScanLink(Some("/raw.jpg")))), true, true);
      var outcomes := Tasks("downloaded_images", urls, [ok, ItemEnv(DetailPage(None), true, true), ok]);
      && SuccessCount(outcomes) == 2
      && "downloaded_images/image_1.jpg" in WrittenFiles(outcomes)
      && "downloaded_images/image_2.jpg" !in WrittenFiles(outcomes)
      && "downloaded_images/image_3.jpg" in WrittenFiles(outcomes)
  {
    var dir := "downloaded_images";
    var ok := ItemEnv(DetailPage(Some(RawScanLink(Some("/raw.jpg")))), true, true);
    var outcomes := Tasks(dir, urls, [ok, ItemEnv(DetailPage(None), true, true), ok]);
    assert Succeeded(outcomes[0]) && !Succeeded(outcomes[1]) && Succeeded(outcomes[2]);
    assert Counting.Count(outcomes[2..], Succeeded) == 1 by {
      assert outcomes[2..][1..] == [];
    }
    assert Counting.Count(outcomes[1..], Succeeded) == 1 by {
      assert outcomes[1..][1..] == outcomes[2..];
    }
    assert Decimal.FromNat(1) == "1" && Decimal.FromNat(2) == "2" && Decimal.FromNat(3) == "3";
    assert TargetPath(dir, 0) == "downloaded_images/image_1.jpg";
    assert TargetPath(dir, 1) == "downloaded_images/image_2.jpg";
    assert TargetPath(dir, 2) == "downloaded_images/image_3.jpg";
    WrittenFileOf(dir, outcomes, 0);
    WrittenFileOf(dir, outcomes, 1);
    WrittenFileOf(dir, outcomes, 2);
  }

  /** The directory `scan_thread` downloads into. */
  const DownloadDir := "downloaded_images"

  /** `scan_thread` after `scan_url`: scan the gallery with a fresh scraper,
      then download every collected link into `downloaded_images`. Both
      numbers the status line reports come back: the links found and the
      images downloaded. */
  method ScanThread(url: string, pages: seq<Discovery.PageOutcome>, envs: seq<ItemEnv>, order: seq<nat>)
    returns (numImages: nat, downloaded: nat)
    requires |envs| == |Discovery.Discover(pages).links|
    requires IsCompletionOrder(order, |envs|)
    ensures numImages == |Discovery.Discover(pages).links|
    ensures downloaded == SuccessCount(Tasks(DownloadDir, Discovery.Discover(pages).links, envs))
    ensures downloaded <= numImages
  {
    var scraper;
    scraper, numImages := Discovery.Scan(url, pages);
    downloaded := DownloadImages(scraper, DownloadDir, envs, order);
  }
}
