/** `Printer.print_image`: check that the printer is on the bus, prepare
    the image, annotate it when there is text, then hand it to the
    transport fallback. */
module Printing {
  import opened Wrappers
  import opened UsbLocator
  import opened Sizing
  import opened Annotation
  import opened Transport

  /** The printer's configuration, read once from the environment:
      `PAPER_WIDTH`, `PRINTER_MODEL` and `RED`. */
  datatype Config = Config(paperWidth: string, model: string, red: bool)

  /** The module-level asserts: both strings must be non-empty. */
  predicate ValidConfig(config: Config) {
    config.paperWidth != "" && config.model != ""
  }

  const DisconnectedMessage := "Printer disconnected. Task dropped."

  /** Python's truth value of an optional annotation. */
  predicate IsTruthy(annotation: Option<string>) {
    annotation.Some? && annotation.value != ""
  }

  /** Image work done for a job, in order. */
  datatype Step = Prepare(size: Size) | Annotate(size: Size)

  /** Runs one print job. The calls the source makes to the outside world
      come in as inputs: `decoded` is the size PIL decodes the image to
      (`None` when `Image.open` raises), `resample` gives the pixels of
      the resized image, `textHeight` is the wrapped text's measured
      height, `lsusbAtCheck` and `lsusbAtSend` are the listings seen by
      the two address lookups, `listing` is `/dev/usb` (`None` when
      listing it raises), and `accepts[k]` is whether `send` to
      candidate `k` succeeds. `composed` is the image `_annotate_image`
      works on, taken before the text is drawn into its band (or the
      resized image when there is no annotation), `steps` the image work
      done, `tried` the candidates sent to. */
  method PrintImage(config: Config, decoded: Option<Size>, resample: (nat, nat) -> Pixel,
                    annotation: Option<string>, textHeight: nat,
                    lsusbAtCheck: string, lsusbAtSend: string,
                    listing: Option<seq<string>>, accepts: seq<bool>)
    returns (r: Outcome<PrintError>, ghost composed: Option<array2<Pixel>>,
             ghost steps: seq<Step>, ghost tried: seq<Backend>)
    requires ValidConfig(config)
    requires listing.Some? ==> |accepts| == 1 + |KernelBackends(listing.value)|
    ensures Address(lsusbAtCheck, config.model).None? ==>
      r == Fail(BrokenPipe(DisconnectedMessage)) && composed == None && steps == [] && tried == []
    ensures Address(lsusbAtCheck, config.model).Some? && decoded.None? ==>
      r == Fail(ImageUnreadable) && composed == None && steps == [] && tried == []
    ensures Address(lsusbAtCheck, config.model).Some? && decoded.Some? && decoded.value.width == 0 ==>
      r == Fail(ZeroImageWidth) && composed == None && steps == [] && tried == []
    ensures Address(lsusbAtCheck, config.model).Some? && decoded.Some? && decoded.value.width > 0 &&
            PreparedSize(config.paperWidth, decoded.value).height == 0 ==>
      r == Fail(ResizeRejected) && composed == None && steps == [] && tried == []
    ensures Address(lsusbAtCheck, config.model).Some? && decoded.Some? && decoded.value.width > 0 &&
            PreparedSize(config.paperWidth, decoded.value).height > 0 ==>
      var prepared := PreparedSize(config.paperWidth, decoded.value);
      var final := if IsTruthy(annotation) then AnnotatedSize(prepared, textHeight) else prepared;
      && steps == [Prepare(prepared)] + (if IsTruthy(annotation) then [Annotate(final)] else [])
      && composed.Some? && fresh(composed.value)
      && Size(composed.value.Length0, composed.value.Length1) == final
      && (forall x, y :: 0 <= x < final.width && 0 <= y < final.height ==>
            composed.value[x, y] == if y < prepared.height then resample(x, y) else White)
      && (r.Pass? <==> listing.Some? && true in accepts)
      && (listing.None? ==> r == Fail(DeviceDirectoryUnreadable) && tried == [])
      && (listing.Some? ==> 1 <= |tried|)
      && (listing.Some? && r.Fail? ==>
            r.error == BrokenPipe(NoBackendMessage) && tried == Candidates(listing.value, Address(lsusbAtSend, config.model)))
      && (r.Pass? ==>
            exists k :: IsFirstSuccess(accepts, k) && tried == Candidates(listing.value, Address(lsusbAtSend, config.model))[..k + 1])
  {
    if Address(lsusbAtCheck, config.model).None? {
      r, composed, steps, tried := Fail(BrokenPipe(DisconnectedMessage)), None, [], [];
      return;
    }
    if decoded.None? {
      r, composed, steps, tried := Fail(ImageUnreadable), None, [], [];
      return;
    }
    if decoded.value.width == 0 {
      r, composed, steps, tried := Fail(ZeroImageWidth), None, [], [];
      return;
    }
    var prepared := PreparedSize(config.paperWidth, decoded.value);
    if prepared.height == 0 {
      r, composed, steps, tried := Fail(ResizeRejected), None, [], [];
      return;
    }
    var image := new Pixel[prepared.width, prepared.height]((x: nat, y: nat) => resample(x, y));
    assert forall x, y :: 0 <= x < prepared.width && 0 <= y < prepared.height ==> image[x, y] == resample(x, y);
    steps := [Prepare(prepared)];
    if IsTruthy(annotation) {
      var anchor;
      image, anchor := AnnotateCanvas(image, textHeight);
      steps := steps + [Annotate(AnnotatedSize(prepared, textHeight))];
    }
    composed := Some(image);
    r, tried := PrintRaster(listing, Address(lsusbAtSend, config.model), accepts);
  }
}
