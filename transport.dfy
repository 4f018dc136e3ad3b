/** The transport fallback of `Printer._print_image`: the list of
    (backend, address) candidates and the loop that hands the raster job
    to each in turn until one `send` returns without raising. */
module Transport {
  import opened Wrappers

  /** A `(backend_identifier, printer_identifier)` pair given to `send`. */
  datatype Backend = Backend(identifier: string, address: string)

  /** What a print job raises: the `BrokenPipeError` of the printer,
      with its message; the `OSError` of listing `/dev/usb` (the
      directory is missing or unreadable); the error of `Image.open` on
      data it cannot decode; the `ZeroDivisionError` of scaling an image
      of width 0; or the `ValueError` of resizing to a height of 0. */
  datatype PrintError =
    | BrokenPipe(message: string)
    | DeviceDirectoryUnreadable
    | ImageUnreadable
    | ZeroImageWidth
    | ResizeRejected

  const NoBackendMessage := "Printing failed. No backend was able to to handle the task."

  /** `str(x)` of an optional string: `None` prints as `"None"`. */
  function PyStr(a: Option<string>): (s: string)
    ensures a.Some? ==> s == a.value
    ensures a.None? ==> s == "None"
  {
    match a
    case Some(v) => v
    case None => "None"
  }

  /** The direct USB candidate, always tried first. */
  function PrimaryBackend(address: Option<string>): Backend {
    Backend("pyusb", PyStr(address))
  }

  /** A kernel line-printer device file `/dev/usb/<entry>`. */
  function KernelBackend(entry: string): Backend {
    Backend("linux_kernel", "/dev/usb/" + entry)
  }

  predicate IsLinePrinter(entry: string) {
    "lp" <= entry
  }

  /** One kernel candidate per `/dev/usb` entry whose name starts with
      `lp`, in listing order. */
  function KernelBackends(listing: seq<string>): (bs: seq<Backend>)
    ensures |bs| <= |listing|
  {
    if listing == [] then [] else EntryBackends(listing[0]) + KernelBackends(listing[1..])
  }

  /** The kernel candidates one listing entry contributes: none, or one. */
  function EntryBackends(entry: string): (bs: seq<Backend>)
    ensures |bs| <= 1
  {
    if IsLinePrinter(entry) then [KernelBackend(entry)] else []
  }

  /** The full candidate list: the pyusb pair with the (second) address
      lookup, then the kernel devices. */
  function Candidates(listing: seq<string>, address: Option<string>): (c: seq<Backend>)
    ensures 1 <= |c| <= 1 + |listing|
    ensures c[0] == Backend("pyusb", PyStr(address))
  {
    [PrimaryBackend(address)] + KernelBackends(listing)
  }

  /** The kernel candidates of a listing split in two are those of the
      first part followed by those of the second: candidates keep the
      listing's order. */
  lemma {:induction false} KernelBackendsAppend(a: seq<string>, b: seq<string>)
    ensures KernelBackends(a + b) == KernelBackends(a) + KernelBackends(b)
  {
    if a == [] {
      assert a + b == b;
    } else {
      var e := EntryBackends(a[0]);
      assert (a + b)[0] == a[0];
      assert (a + b)[1..] == a[1..] + b;
      calc {
        KernelBackends(a + b);
        e + KernelBackends(a[1..] + b);
        { KernelBackendsAppend(a[1..], b); }
        e + (KernelBackends(a[1..]) + KernelBackends(b));
        (e + KernelBackends(a[1..])) + KernelBackends(b);
        KernelBackends(a) + KernelBackends(b);
      }
    }
  }

  /** Different entries give different device paths. */
  lemma KernelBackendInjective(e1: string, e2: string)
    ensures KernelBackend(e1) == KernelBackend(e2) ==> e1 == e2
  {
    var p := "/dev/usb/";
    if KernelBackend(e1) == KernelBackend(e2) {
      assert e1 == (p + e1)[|p|..] == (p + e2)[|p|..] == e2;
    }
  }

  /** A kernel candidate is in the list exactly when its entry is in the
      listing and starts with `lp`. */
  lemma {:induction false} KernelBackendsMembers(listing: seq<string>, entry: string)
    ensures KernelBackend(entry) in KernelBackends(listing) <==>
      entry in listing && IsLinePrinter(entry)
  {
    if listing != [] {
      KernelBackendsMembers(listing[1..], entry);
      KernelBackendInjective(entry, listing[0]);
      assert listing == [listing[0]] + listing[1..];
    }
  }

  /** Every kernel candidate comes from a line-printer entry of the listing. */
  lemma {:induction false} KernelBackendsFromListing(listing: seq<string>)
    ensures forall b :: b in KernelBackends(listing) ==>
      b.identifier == "linux_kernel" && exists e :: e in listing && IsLinePrinter(e) && b == KernelBackend(e)
  {
    if listing != [] {
      KernelBackendsFromListing(listing[1..]);
    }
  }

  /** The candidate list is never empty; it starts with the pyusb pair,
      has one more element than there are kernel candidates, and holds
      every entry's candidate iff that entry starts with `lp`. */
  lemma CandidatesShape(listing: seq<string>, address: Option<string>)
    ensures var c := Candidates(listing, address);
      1 <= |c| <= 1 + |listing| &&
      c[0] == Backend("pyusb", PyStr(address)) &&
      c[1..] == KernelBackends(listing) &&
      forall e :: KernelBackend(e) in c[1..] <==> e in listing && IsLinePrinter(e)
  {
    var c := Candidates(listing, address);
    assert c[1..] == KernelBackends(listing);
    forall e ensures KernelBackend(e) in c[1..] <==> e in listing && IsLinePrinter(e) {
      KernelBackendsMembers(listing, e);
    }
  }

  /** The index of the first accepting send, if any. */
  ghost predicate IsFirstSuccess(accepts: seq<bool>, k: int) {
    0 <= k < |accepts| && accepts[k] && forall j :: 0 <= j < k ==> !accepts[j]
  }

  /** Builds the candidate list as the source does: the kernel devices in
      listing order, then the pyusb pair inserted at the front. */
  method BuildBackends(listing: seq<string>, address: Option<string>) returns (backends: seq<Backend>)
    ensures backends == Candidates(listing, address)
  {
    backends := [];
    for i := 0 to |listing|
      invariant backends == KernelBackends(listing[..i])
    {
      KernelBackendsAppend(listing[..i], [listing[i]]);
      assert listing[..i + 1] == listing[..i] + [listing[i]];
      if IsLinePrinter(listing[i]) {
        backends := backends + [KernelBackend(listing[i])];
      }
    }
    assert listing[..|listing|] == listing;
    backends := [PrimaryBackend(address)] + backends;
  }

  /** The fallback loop. `accepts[k]` says whether `send` to candidate
      `k` returns without raising; `tried` records the candidates sent
      to, in order. The loop stops at the first success and survives any
      number of failures. */
  method SendFirst(backends: seq<Backend>, accepts: seq<bool>) returns (success: bool, ghost tried: seq<Backend>)
    requires |accepts| == |backends|
    ensures success <==> true in accepts
    ensures success ==> exists k :: IsFirstSuccess(accepts, k) && tried == backends[..k + 1]
    ensures !success ==> tried == backends
  {
    success := false;
    tried := [];
    var i := 0;
    while i < |backends|
      invariant 0 <= i <= |backends|
      invariant !success
      invariant tried == backends[..i]
      invariant forall j :: 0 <= j < i ==> !accepts[j]
    {
      tried := tried + [backends[i]];
      if accepts[i] {
        success := true;
        assert IsFirstSuccess(accepts, i);
        break;
      }
      i := i + 1;
    }
  }

  /** `_print_image` after raster conversion: list `/dev/usb` (`None`
      when `os.listdir` raises, which happens before any send and outside
      any `try`), build the candidates, try them, and raise
      `BrokenPipeError` when every one failed. */
  method PrintRaster(listing: Option<seq<string>>, address: Option<string>, accepts: seq<bool>)
    returns (r: Outcome<PrintError>, ghost tried: seq<Backend>)
    requires listing.Some? ==> |accepts| == 1 + |KernelBackends(listing.value)|
    ensures r.Pass? <==> listing.Some? && true in accepts
    ensures listing.None? ==> r == Fail(DeviceDirectoryUnreadable) && tried == []
    ensures listing.Some? && r.Fail? ==>
      r.error == BrokenPipe(NoBackendMessage) && tried == Candidates(listing.value, address)
    ensures r.Pass? ==>
      exists k :: IsFirstSuccess(accepts, k) && tried == Candidates(listing.value, address)[..k + 1]
    ensures listing.Some? ==> 1 <= |tried|
  {
    if listing.None? {
      r, tried := Fail(DeviceDirectoryUnreadable), [];
      return;
    }
    var backends := BuildBackends(listing.value, address);
    var success;
    success, tried := SendFirst(backends, accepts);
    if !success {
      r := Fail(BrokenPipe(NoBackendMessage));
    } else {
      r := Pass;
    }
  }

  /** A client of the loop: the pyusb pair fails, the first kernel device
      takes the job, so exactly two sends are made. */
  method FallbackExample() {
    assert "hiddev0"[0] != "lp"[0];
    assert KernelBackends(["lp0", "hiddev0"]) == [KernelBackend("lp0")];
    var r, tried := PrintRaster(Some(["lp0", "hiddev0"]), Some("usb://0x04f9:0x209b"), [false, true]);
    assert r.Pass?;
    assert |tried| == 2 && tried[1] == Backend("linux_kernel", "/dev/usb/lp0");
  }
}
